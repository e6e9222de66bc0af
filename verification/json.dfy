/** The JSON document tree of json.h / json.cpp: a node is null, an array,
    a dictionary, a boolean, an int, a double or a string.  A dictionary is
    a std::map, so it is kept here as a member list sorted strictly by key;
    a double is a real number. */
module Json {
  import opened Wrappers

  datatype Node =
    | Null
    | Array(items: seq<Node>)
    | Dict(members: seq<Member>)
    | Bool(b: bool)
    | Int(i: int)
    | Double(d: real)
    | Str(s: string)

  datatype Member = Member(key: string, value: Node)

  /** The range of the source's `int`. */
  const IntMin: int := -0x8000_0000
  const IntMax: int := 0x7fff_ffff

  predicate IsInt32(i: int) {
    IntMin <= i <= IntMax
  }

  /* ---------------------------------------------------------------------
     Character classes of <cctype> in the "C" locale
     --------------------------------------------------------------------- */

  predicate IsSpace(ch: char) {
    ch == ' ' || ch == '\t' || ch == '\n' || ch == '\U{000B}' || ch == '\U{000C}' || ch == '\r'
  }

  predicate IsDigit(ch: char) {
    '0' <= ch <= '9'
  }

  predicate IsAlpha(ch: char) {
    ('a' <= ch <= 'z') || ('A' <= ch <= 'Z')
  }

  /* ---------------------------------------------------------------------
     Key order of std::map<std::string, Node>: lexicographic by character
     --------------------------------------------------------------------- */

  predicate StrLess(a: string, b: string) {
    if a == [] then b != []
    else if b == [] then false
    else a[0] < b[0] || (a[0] == b[0] && StrLess(a[1..], b[1..]))
  }

  lemma {:induction false} StrLessIrreflexive(a: string)
    ensures !StrLess(a, a)
  {
    if a != [] {
      StrLessIrreflexive(a[1..]);
    }
  }

  lemma {:induction false} StrLessTransitive(a: string, b: string, c: string)
    requires StrLess(a, b) && StrLess(b, c)
    ensures StrLess(a, c)
  {
    if a != [] && b != [] && c != [] && a[0] == b[0] && b[0] == c[0] {
      StrLessTransitive(a[1..], b[1..], c[1..]);
    }
  }

  lemma {:induction false} StrLessTotal(a: string, b: string)
    ensures a == b || StrLess(a, b) || StrLess(b, a)
  {
    if a != [] && b != [] && a[0] == b[0] {
      StrLessTotal(a[1..], b[1..]);
      if a[1..] == b[1..] {
        assert a == [a[0]] + a[1..] && b == [b[0]] + b[1..];
      }
    }
  }

  /** The key at i comes before the key at j. */
  predicate KeysOrdered(ms: seq<Member>, i: nat, j: nat)
    requires i < |ms| && j < |ms|
  {
    StrLess(ms[i].key, ms[j].key)
  }

  /** Strictly increasing keys: the shape every std::map iteration has. */
  predicate SortedKeys(ms: seq<Member>) {
    forall i, j :: 0 <= i < j < |ms| ==> KeysOrdered(ms, i, j)
  }

  function Keys(ms: seq<Member>): set<string> {
    set k | 0 <= k < |ms| :: ms[k].key
  }

  /** The value stored under `key`, if any. */
  function Get(ms: seq<Member>, key: string): (r: Option<Node>)
    ensures r.Some? <==> key in Keys(ms)
    ensures r.Some? ==> Member(key, r.value) in ms
  {
    if ms == [] then None
    else if ms[0].key == key then Some(ms[0].value)
    else
      var rest := Get(ms[1..], key);
      assert Keys(ms) == {ms[0].key} + Keys(ms[1..]) by {
        forall k | k in Keys(ms) ensures k in {ms[0].key} + Keys(ms[1..]) {
          var i :| 0 <= i < |ms| && ms[i].key == k;
          if i > 0 {
            assert ms[1..][i - 1].key == k;
          }
        }
      }
      rest
  }

  lemma {:induction false} SortedTail(ms: seq<Member>)
    requires SortedKeys(ms) && ms != []
    ensures SortedKeys(ms[1..])
    ensures forall k :: k in Keys(ms[1..]) ==> StrLess(ms[0].key, k)
  {
    var t := ms[1..];
    forall i, j | 0 <= i < j < |t| ensures KeysOrdered(t, i, j) {
      assert KeysOrdered(ms, i + 1, j + 1);
    }
    forall k | k in Keys(t) ensures StrLess(ms[0].key, k) {
      var i :| 0 <= i < |t| && t[i].key == k;
      assert KeysOrdered(ms, 0, i + 1);
    }
  }

  /** Every lookup outcome of the map `ms` with `key` bound to `value`
      when absent. */
  ghost predicate EmplaceOutcome(ms: seq<Member>, key: string, value: Node, r: seq<Member>) {
    && SortedKeys(r)
    && Keys(r) == Keys(ms) + {key}
    && Get(r, key) == (if key in Keys(ms) then Get(ms, key) else Some(value))
    && forall k :: k != key ==> Get(r, k) == Get(ms, k)
  }

  /** `std::map::emplace`: insert the pair unless the key is present, in
      which case the map keeps its first value. */
  function {:induction false} Emplace(ms: seq<Member>, key: string, value: Node): (r: seq<Member>)
    requires SortedKeys(ms)
    ensures SortedKeys(r)
    ensures Keys(r) == Keys(ms) + {key}
    ensures Get(r, key) == (if key in Keys(ms) then Get(ms, key) else Some(value))
    ensures forall k :: k != key ==> Get(r, k) == Get(ms, k)
  {
    if ms == [] then
      assert Keys([Member(key, value)]) == {key} by {
        assert [Member(key, value)][0].key == key;
      }
      [Member(key, value)]
    else if ms[0].key == key then
      ms
    else if StrLess(key, ms[0].key) then
      EmplaceInFront(ms, key, value);
      [Member(key, value)] + ms
    else
      SortedTail(ms);
      var tail := Emplace(ms[1..], key, value);
      EmplaceBehind(ms, key, value, tail);
      [ms[0]] + tail
  }

  lemma {:induction false} EmplaceInFront(ms: seq<Member>, key: string, value: Node)
    requires SortedKeys(ms) && ms != [] && StrLess(key, ms[0].key)
    ensures EmplaceOutcome(ms, key, value, [Member(key, value)] + ms)
  {
    var r := [Member(key, value)] + ms;
    KeysCons(Member(key, value), ms);
    forall i, j | 0 <= i < j < |r| ensures KeysOrdered(r, i, j) {
      if i == 0 && j > 1 {
        assert KeysOrdered(ms, 0, j - 1);
        StrLessTransitive(key, ms[0].key, r[j].key);
      } else if i > 0 {
        assert KeysOrdered(ms, i - 1, j - 1);
      }
    }
    StrLessIrreflexive(key);
    if key in Keys(ms) {
      var i :| 0 <= i < |ms| && ms[i].key == key;
      if i > 0 {
        assert KeysOrdered(ms, 0, i);
        StrLessTransitive(key, ms[0].key, key);
      }
      assert false;
    }
    forall k | k != key ensures Get(r, k) == Get(ms, k) {
      assert r[1..] == ms;
    }
  }

  lemma {:induction false} EmplaceBehind(ms: seq<Member>, key: string, value: Node, tail: seq<Member>)
    requires SortedKeys(ms) && ms != [] && ms[0].key != key && !StrLess(key, ms[0].key)
    requires EmplaceOutcome(ms[1..], key, value, tail)
    ensures EmplaceOutcome(ms, key, value, [ms[0]] + tail)
  {
    SortedTail(ms);
    var r := [ms[0]] + tail;
    KeysCons(ms[0], tail);
    KeysCons(ms[0], ms[1..]);
    assert [ms[0]] + ms[1..] == ms;
    StrLessTotal(key, ms[0].key);
    forall i, j | 0 <= i < j < |r| ensures KeysOrdered(r, i, j) {
      if i == 0 {
        assert r[j].key in Keys(tail) by { assert tail[j - 1] == r[j]; }
      } else {
        assert r[i] == tail[i - 1] && r[j] == tail[j - 1];
        assert KeysOrdered(tail, i - 1, j - 1);
      }
    }
    assert r[1..] == tail;
  }

  lemma {:induction false} KeysCons(m: Member, ms: seq<Member>)
    ensures Keys([m] + ms) == {m.key} + Keys(ms)
  {
    var r := [m] + ms;
    forall k | k in Keys(r) ensures k in {m.key} + Keys(ms) {
      var i :| 0 <= i < |r| && r[i].key == k;
      if i > 0 {
        assert ms[i - 1].key == k;
      }
    }
    forall k | k in Keys(ms) ensures k in Keys(r) {
      var i :| 0 <= i < |ms| && ms[i].key == k;
      assert r[i + 1].key == k;
    }
    assert r[0].key == m.key;
  }

  /** Emplacing a key greater than every present key appends it. */
  lemma {:induction false} EmplaceGreatest(ms: seq<Member>, key: string, value: Node)
    requires SortedKeys(ms) && forall i :: 0 <= i < |ms| ==> StrLess(ms[i].key, key)
    ensures Emplace(ms, key, value) == ms + [Member(key, value)]
  {
    if ms != [] {
      var rest := ms[1..];
      GreaterThanHead(ms[0].key, key);
      SortedTail(ms);
      GreaterThanTail(ms, key);
      EmplaceGreatest(rest, key, value);
      EmplacePastHead(ms, key, value, rest + [Member(key, value)]);
      AppendAssoc([ms[0]], rest, [Member(key, value)]);
      assert [ms[0]] + rest == ms;
    }
  }

  /** A key above a present key neither equals it nor goes before it. */
  lemma {:induction false} GreaterThanHead(first: string, key: string)
    requires StrLess(first, key)
    ensures first != key && !StrLess(key, first)
  {
    StrLessIrreflexive(key);
    if StrLess(key, first) {
      StrLessTransitive(key, first, key);
    }
  }

  /** A key above every present key is above every key of the tail. */
  lemma {:induction false} GreaterThanTail(ms: seq<Member>, key: string)
    requires ms != [] && forall i :: 0 <= i < |ms| ==> StrLess(ms[i].key, key)
    ensures forall i :: 0 <= i < |ms[1..]| ==> StrLess(ms[1..][i].key, key)
  {
    assert forall i :: 0 <= i < |ms[1..]| ==> ms[1..][i] == ms[i + 1];
  }

  /** Past a smaller first key, emplacing goes into the tail. */
  lemma {:induction false} EmplacePastHead(ms: seq<Member>, key: string, value: Node, tail: seq<Member>)
    requires SortedKeys(ms) && ms != [] && ms[0].key != key && !StrLess(key, ms[0].key)
    requires SortedKeys(ms[1..]) && Emplace(ms[1..], key, value) == tail
    ensures Emplace(ms, key, value) == [ms[0]] + tail
  {
  }

  /** Emplace adds no member other than the one it was given. */
  lemma {:induction false} EmplaceMembers(ms: seq<Member>, key: string, value: Node)
    requires SortedKeys(ms)
    ensures forall m :: m in Emplace(ms, key, value) ==> m in ms || m == Member(key, value)
  {
    if ms != [] && ms[0].key != key && !StrLess(key, ms[0].key) {
      SortedTail(ms);
      EmplaceMembers(ms[1..], key, value);
      assert Emplace(ms, key, value) == [ms[0]] + Emplace(ms[1..], key, value);
    }
  }

  /* ---------------------------------------------------------------------
     Node accessors (json.cpp:255-293)
     --------------------------------------------------------------------- */

  datatype LogicError = NotAnInt | NotABool | NotANumber | NotAString | NotAnArray | NotAMap

  predicate IsInt(n: Node) { n.Int? }
  /** An int counts as a double too. */
  predicate IsDouble(n: Node) { n.Int? || n.Double? }
  predicate IsPureDouble(n: Node) { n.Double? }
  predicate IsBool(n: Node) { n.Bool? }
  predicate IsString(n: Node) { n.Str? }
  predicate IsNull(n: Node) { n.Null? }
  predicate IsArray(n: Node) { n.Array? }
  predicate IsMap(n: Node) { n.Dict? }

  function AsInt(n: Node): (r: Result<int, LogicError>)
    ensures r.Success? <==> IsInt(n)
    ensures r.Success? ==> n == Int(r.value)
    ensures r.Failure? ==> r.error == NotAnInt
  {
    if n.Int? then Success(n.i) else Failure(NotAnInt)
  }

  function AsBool(n: Node): (r: Result<bool, LogicError>)
    ensures r.Success? <==> IsBool(n)
    ensures r.Success? ==> n == Bool(r.value)
    ensures r.Failure? ==> r.error == NotABool
  {
    if n.Bool? then Success(n.b) else Failure(NotABool)
  }

  /** An int converts exactly to its double value. */
  function AsDouble(n: Node): (r: Result<real, LogicError>)
    ensures r.Success? <==> IsDouble(n)
    ensures r.Success? ==> n == Double(r.value) || (n.Int? && n.i as real == r.value)
    ensures r.Failure? ==> r.error == NotANumber
  {
    match n
    case Double(d) => Success(d)
    case Int(i) => Success(i as real)
    case _ => Failure(NotANumber)
  }

  function AsString(n: Node): (r: Result<string, LogicError>)
    ensures r.Success? <==> IsString(n)
    ensures r.Success? ==> n == Str(r.value)
    ensures r.Failure? ==> r.error == NotAString
  {
    if n.Str? then Success(n.s) else Failure(NotAString)
  }

  function AsArray(n: Node): (r: Result<seq<Node>, LogicError>)
    ensures r.Success? <==> IsArray(n)
    ensures r.Success? ==> n == Array(r.value)
    ensures r.Failure? ==> r.error == NotAnArray
  {
    if n.Array? then Success(n.items) else Failure(NotAnArray)
  }

  function AsMap(n: Node): (r: Result<seq<Member>, LogicError>)
    ensures r.Success? <==> IsMap(n)
    ensures r.Success? ==> n == Dict(r.value)
    ensures r.Failure? ==> r.error == NotAMap
  {
    if n.Dict? then Success(n.members) else Failure(NotAMap)
  }
}
