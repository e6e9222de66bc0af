/** The JSON builder of json_builder.cpp: a root, a stack of the containers
    still open, a pending dictionary key and a built flag.  Every call
    checks the state first and throws std::logic_error when it is wrong.

    The stack holds pointers into the tree.  Here the tree is an immutable
    value, and each stack entry is the path from the root to the container
    it points at.  (A pointer into an array is never held while that array
    grows: only the top of the stack is ever extended, and every entry
    below it is an ancestor of it, so paths and pointers agree.)

    Opening a container inside a dictionary pushes the entry with the
    greatest key (json_builder.cpp:104, :127), which is not always the
    entry just inserted.  `Variant` selects between that behaviour and the
    evidently intended one, which pushes the entry under the key just used. */
module JsonBuilder {
  import opened Wrappers
  import opened Json

  /* ---------------------------------------------------------------------
     Paths into a tree
     --------------------------------------------------------------------- */

  datatype Step = Index(i: nat) | Field(key: string)

  type Path = seq<Step>

  /** The node a path leads to, if it leads anywhere. */
  function Find(n: Node, path: Path): Option<Node>
    decreases |path|
  {
    if path == [] then Some(n)
    else match path[0]
      case Index(i) =>
        if n.Array? && i < |n.items| then Find(n.items[i], path[1..]) else None
      case Field(k) =>
        if n.Dict? && Get(n.members, k).Some? then Find(Get(n.members, k).value, path[1..]) else None
  }

  /** The members with the value under `key` replaced; keys and order stay. */
  function Replace(ms: seq<Member>, key: string, v: Node): (r: seq<Member>)
    ensures |r| == |ms|
  {
    if ms == [] then []
    else [if ms[0].key == key then Member(key, v) else ms[0]] + Replace(ms[1..], key, v)
  }

  /** The tree with the node at `path` replaced by x; unchanged when the
      path leads nowhere. */
  function Put(n: Node, path: Path, x: Node): Node
    decreases |path|
  {
    if path == [] then x
    else match path[0]
      case Index(i) =>
        if n.Array? && i < |n.items| then Array(n.items[i := Put(n.items[i], path[1..], x)]) else n
      case Field(k) =>
        if n.Dict? && Get(n.members, k).Some?
        then Dict(Replace(n.members, k, Put(Get(n.members, k).value, path[1..], x)))
        else n
  }

  /** Every dictionary in the tree is sorted by key, as a std::map is. */
  predicate WellFormed(n: Node)
    decreases n
  {
    match n
    case Array(items) => forall i :: 0 <= i < |items| ==> WellFormed(items[i])
    case Dict(ms) => SortedKeys(ms) && forall i :: 0 <= i < |ms| ==> WellFormed(ms[i].value)
    case _ => true
  }

  /** A value the C++ type admits: the dictionaries of `Node::Value` are
      std::maps. */
  type SortedNode = n: Node | WellFormed(n) witness Null

  /* ---------------------------------------------------------------------
     The builder (json_builder.h:40-43)
     --------------------------------------------------------------------- */

  datatype Builder = Builder(root: Option<Node>, stack: seq<Path>, pendingKey: Option<string>, built: bool)

  const NewBuilder := Builder(None, [], None, false)

  /** The logic_error messages of json_builder.cpp, one per guard. */
  datatype BuildError =
    | AlreadyBuilt      // :23, :153
    | RootAlreadySet    // :30
    | KeyRequired       // :38
    | NotInDict         // :46
    | NotInArray        // :52
    | KeyNotAllowed     // :58
    | NoValue           // :156
    | Unclosed          // :159

  datatype Variant = AsWritten | Corrected

  function TopPath(b: Builder): Path
    requires b.stack != []
  {
    b.stack[|b.stack| - 1]
  }

  /** The node the top of the stack points at. */
  function Top(b: Builder): Option<Node> {
    if b.stack == [] || b.root.None? then None else Find(b.root.value, TopPath(b))
  }

  /** What every reachable state satisfies: the tree is well formed (so is
      the part of it the top points at), and an open container implies a
      root. */
  predicate Valid(b: Builder) {
    && (b.root.Some? ==> WellFormed(b.root.value))
    && (b.stack != [] ==> b.root.Some?)
    && (Top(b).Some? ==> WellFormed(Top(b).value))
  }

  predicate TopIsMap(b: Builder) {
    Top(b).Some? && Top(b).value.Dict?
  }

  predicate TopIsArray(b: Builder) {
    Top(b).Some? && Top(b).value.Array?
  }

  /** The last member of a map, which `rbegin` points at. */
  function Last(ms: seq<Member>): Member
    requires ms != []
  {
    ms[|ms| - 1]
  }

  /** The container at the top of the stack once x is added to it: a map
      emplaces x under the pending key (an existing key keeps its value),
      an array appends it. */
  function Filled(b: Builder, x: Node): (r: Node)
    requires Valid(b) && (TopIsMap(b) || TopIsArray(b)) && (TopIsMap(b) ==> b.pendingKey.Some?)
    ensures TopIsArray(b) ==> r == Array(Top(b).value.items + [x])
    ensures TopIsMap(b) ==> r == Dict(Emplace(Top(b).value.members, b.pendingKey.value, x))
  {
    match Top(b).value
    case Dict(ms) => Dict(Emplace(ms, b.pendingKey.value, x))
    case Array(items) => Array(items + [x])
  }

  /** The step from the top of the stack to the entry pushed after x is
      added: the new element of an array; in a map, the entry `rbegin`
      names as written, the entry under the pending key as intended. */
  function ChildStep(b: Builder, x: Node, v: Variant): Step
    requires Valid(b) && (TopIsMap(b) || TopIsArray(b)) && (TopIsMap(b) ==> b.pendingKey.Some?)
  {
    if TopIsArray(b) then Index(|Top(b).value.items|)
    else
      var ms' := Filled(b, x).members;
      if v == AsWritten && ms' != [] then Field(Last(ms').key) else Field(b.pendingKey.value)
  }

  /** Adds x under the container at the top of the stack, and gives the
      path of the entry pushed when x opens a container
      (json_builder.cpp:78-86, 99-109, 122-132).  A dictionary consumes the
      pending key; a top that is no container takes nothing. */
  function Attach(b: Builder, x: SortedNode, v: Variant): (r: (Builder, Option<Path>))
    requires Valid(b) && b.stack != [] && (TopIsMap(b) ==> b.pendingKey.Some?)
    ensures Valid(r.0) && r.0.stack == b.stack && r.0.built == b.built
    ensures r.1.Some? <==> TopIsMap(b) || TopIsArray(b)
    ensures r.1.Some? ==> r.1.value == TopPath(b) + [ChildStep(b, x, v)]
    ensures r.1.Some? ==> r.0.root == Some(Put(b.root.value, TopPath(b), Filled(b, x)))
    ensures r.0.pendingKey == (if TopIsMap(b) then None else b.pendingKey)
    ensures r.1.None? ==> r.0 == b
  {
    if !TopIsMap(b) && !TopIsArray(b) then (b, None)
    else
      var p := TopPath(b);
      var root := b.root.value;
      var parent := Filled(b, x);
      FilledWellFormed(b, x);
      PutWellFormed(root, p, parent);
      FindPut(root, p, parent);
      var b' := b.(root := Some(Put(root, p, parent)), pendingKey := if TopIsMap(b) then None else b.pendingKey);
      (b', Some(p + [ChildStep(b, x, v)]))
  }

  lemma {:induction false} FilledWellFormed(b: Builder, x: Node)
    requires Valid(b) && (TopIsMap(b) || TopIsArray(b)) && (TopIsMap(b) ==> b.pendingKey.Some?)
    requires WellFormed(x)
    ensures WellFormed(Filled(b, x))
  {
    if TopIsMap(b) {
      var ms := Top(b).value.members;
      var key := b.pendingKey.value;
      var ms' := Emplace(ms, key, x);
      EmplaceMembers(ms, key, x);
      forall i | 0 <= i < |ms'| ensures WellFormed(ms'[i].value) {
        assert ms'[i] in ms';
        if ms'[i] != Member(key, x) {
          var j :| 0 <= j < |ms| && ms[j] == ms'[i];
        }
      }
    } else {
      var t := Filled(b, x).items;
      forall i | 0 <= i < |t| ensures WellFormed(t[i]) {
        if i < |t| - 1 {
          assert t[i] == Top(b).value.items[i];
        }
      }
    }
  }

  /** `Builder::Key` (json_builder.cpp:56-67): only in a dictionary, and
      only once before each value. */
  function Key(b: Builder, key: string): (r: Result<Builder, BuildError>)
    ensures b.built ==> r == Failure(AlreadyBuilt)
    ensures !b.built && b.stack == [] && b.root.Some? ==> r == Failure(RootAlreadySet)
    ensures r.Success? <==> !b.built && TopIsMap(b) && b.pendingKey.None?
    ensures r.Success? ==> r.value == b.(pendingKey := Some(key))
  {
    if b.built then Failure(AlreadyBuilt)
    else if b.stack == [] && b.root.Some? then Failure(RootAlreadySet)
    else if b.stack == [] || !TopIsMap(b) || b.pendingKey.Some? then Failure(KeyNotAllowed)
    else Success(b.(pendingKey := Some(key)))
  }

  /** `Builder::Value` (json_builder.cpp:69-89). */
  function Value(b: Builder, x: SortedNode, v: Variant): (r: Result<Builder, BuildError>)
    requires Valid(b)
    ensures b.built ==> r == Failure(AlreadyBuilt)
    ensures !b.built && b.stack == [] && b.root.Some? ==> r == Failure(RootAlreadySet)
    ensures !b.built && TopIsMap(b) && b.pendingKey.None? ==> r == Failure(KeyRequired)
    ensures r.Success? <==> !b.built && (if b.stack == [] then b.root.None? else TopIsMap(b) ==> b.pendingKey.Some?)
    ensures r.Success? ==> Valid(r.value) && r.value.stack == b.stack && !r.value.built
    ensures b.stack == [] && r.Success? ==> r.value == b.(root := Some(x))
    ensures TopIsMap(b) && r.Success? ==>
      && r.value.pendingKey.None?
      && Top(r.value) == Some(Dict(Emplace(Top(b).value.members, b.pendingKey.value, x)))
    ensures TopIsArray(b) && r.Success? ==>
      r.value.pendingKey == b.pendingKey && Top(r.value) == Some(Array(Top(b).value.items + [x]))
    ensures (TopIsMap(b) || TopIsArray(b)) && r.Success? ==>
      r.value.root == Some(Put(b.root.value, TopPath(b), Filled(b, x)))
    ensures b.stack != [] && !TopIsMap(b) && !TopIsArray(b) && r.Success? ==> r.value == b
  {
    if b.built then Failure(AlreadyBuilt)
    else if b.stack == [] && b.root.Some? then Failure(RootAlreadySet)
    else if b.stack != [] && TopIsMap(b) && b.pendingKey.None? then Failure(KeyRequired)
    else if b.stack == [] then Success(b.(root := Some(x)))
    else
      var r := Attach(b, x, v).0;
      if TopIsMap(b) || TopIsArray(b) then
        FindPut(b.root.value, TopPath(b), Filled(b, x));
        Success(r)
      else Success(r)
  }

  /** `Builder::StartDict` and `Builder::StartArray` (json_builder.cpp:91-135):
      the empty container is added as a value would be, and the entry
      `Attach` names is pushed. */
  function Start(b: Builder, empty: SortedNode, v: Variant): (r: Result<Builder, BuildError>)
    requires Valid(b) && (empty == Dict([]) || empty == Array([]))
    ensures b.built ==> r == Failure(AlreadyBuilt)
    ensures !b.built && b.stack == [] && b.root.Some? ==> r == Failure(RootAlreadySet)
    ensures !b.built && TopIsMap(b) && b.pendingKey.None? ==> r == Failure(KeyRequired)
    ensures r.Success? <==> !b.built && (if b.stack == [] then b.root.None? else TopIsMap(b) ==> b.pendingKey.Some?)
    ensures r.Success? ==> Valid(r.value) && !r.value.built
    ensures b.stack == [] && r.Success? ==> r.value == b.(root := Some(empty), stack := [[]])
    ensures (TopIsMap(b) || TopIsArray(b)) && r.Success? ==>
      && |r.value.stack| == |b.stack| + 1 && r.value.stack[..|b.stack|] == b.stack
      && r.value.pendingKey == (if TopIsMap(b) then None else b.pendingKey)
    ensures (TopIsMap(b) || TopIsArray(b)) && r.Success? ==>
      && r.value.root == Some(Put(b.root.value, TopPath(b), Filled(b, empty)))
      && r.value.stack[|b.stack|] == TopPath(b) + [ChildStep(b, empty, v)]
    ensures TopIsArray(b) && r.Success? ==> Top(r.value) == Some(empty)
    ensures v == Corrected && TopIsMap(b) && r.Success? && b.pendingKey.value !in Keys(Top(b).value.members) ==>
      Top(r.value) == Some(empty)
    ensures v == AsWritten && TopIsMap(b) && r.Success? ==>
      Top(r.value) == Some(Last(Emplace(Top(b).value.members, b.pendingKey.value, empty)).value)
    ensures b.stack != [] && !TopIsMap(b) && !TopIsArray(b) && r.Success? ==> r.value == b
  {
    if b.built then Failure(AlreadyBuilt)
    else if b.stack == [] && b.root.Some? then Failure(RootAlreadySet)
    else if b.stack != [] && TopIsMap(b) && b.pendingKey.None? then Failure(KeyRequired)
    else if b.stack == [] then Success(b.(root := Some(empty), stack := [[]]))
    else
      var att := Attach(b, empty, v);
      if att.1.None? then Success(att.0)
      else
        StartTop(b, empty, v);
        FindWellFormed(att.0.root.value, att.1.value);
        Success(att.0.(stack := att.0.stack + [att.1.value]))
  }

  /** Where `Start` leaves the top of the stack: at the entry one step
      below the old top. */
  lemma {:induction false} StartTop(b: Builder, empty: SortedNode, v: Variant)
    requires Valid(b) && b.stack != [] && (TopIsMap(b) || TopIsArray(b)) && (TopIsMap(b) ==> b.pendingKey.Some?)
    requires empty == Dict([]) || empty == Array([])
    ensures var att := Attach(b, empty, v);
      && att.1.Some?
      && var t := Top(att.0.(stack := att.0.stack + [att.1.value]));
      && t.Some?
      && (TopIsArray(b) ==> t == Some(empty))
      && (TopIsMap(b) && v == Corrected && b.pendingKey.value !in Keys(Top(b).value.members) ==> t == Some(empty))
      && (TopIsMap(b) && v == AsWritten ==> t == Some(Last(Emplace(Top(b).value.members, b.pendingKey.value, empty)).value))
  {
    var st := ChildStep(b, empty, v);
    var parent := Filled(b, empty);
    FindChild(b.root.value, TopPath(b), parent, st);
    ChildFound(b, empty, v);
  }

  /** The entry `ChildStep` names in the filled parent. */
  lemma {:induction false} ChildFound(b: Builder, empty: SortedNode, v: Variant)
    requires Valid(b) && b.stack != [] && (TopIsMap(b) || TopIsArray(b)) && (TopIsMap(b) ==> b.pendingKey.Some?)
    ensures var t := Find(Filled(b, empty), [ChildStep(b, empty, v)]);
      && t.Some?
      && (TopIsArray(b) ==> t == Some(empty))
      && (TopIsMap(b) && v == Corrected && b.pendingKey.value !in Keys(Top(b).value.members) ==> t == Some(empty))
      && (TopIsMap(b) && v == AsWritten ==> t == Some(Last(Emplace(Top(b).value.members, b.pendingKey.value, empty)).value))
  {
    if TopIsMap(b) {
      ChildFoundMap(b, empty, v);
    } else {
      assert [ChildStep(b, empty, v)][1..] == [];
    }
  }

  lemma {:induction false} ChildFoundMap(b: Builder, empty: SortedNode, v: Variant)
    requires Valid(b) && b.stack != [] && TopIsMap(b) && b.pendingKey.Some?
    ensures var t := Find(Filled(b, empty), [ChildStep(b, empty, v)]);
      && t.Some?
      && (v == Corrected && b.pendingKey.value !in Keys(Top(b).value.members) ==> t == Some(empty))
      && (v == AsWritten ==> t == Some(Last(Emplace(Top(b).value.members, b.pendingKey.value, empty)).value))
  {
    var st := ChildStep(b, empty, v);
    var ms' := Filled(b, empty).members;
    assert [st][1..] == [];
    assert b.pendingKey.value in Keys(ms');
    if v == AsWritten {
      FilledWellFormed(b, empty);
      GetAt(ms', |ms'| - 1);
    }
  }

  /** `Builder::EndDict` (json_builder.cpp:137-142). */
  function EndDict(b: Builder): (r: Result<Builder, BuildError>)
    ensures b.built ==> r == Failure(AlreadyBuilt)
    ensures !b.built && b.stack == [] && b.root.Some? ==> r == Failure(RootAlreadySet)
    ensures r.Success? <==> !b.built && TopIsMap(b)
    ensures r.Success? ==> r.value == b.(stack := b.stack[..|b.stack| - 1])
  {
    if b.built then Failure(AlreadyBuilt)
    else if b.stack == [] && b.root.Some? then Failure(RootAlreadySet)
    else if b.stack == [] || !TopIsMap(b) then Failure(NotInDict)
    else Success(b.(stack := b.stack[..|b.stack| - 1]))
  }

  /** `Builder::EndArray` (json_builder.cpp:144-149). */
  function EndArray(b: Builder): (r: Result<Builder, BuildError>)
    ensures b.built ==> r == Failure(AlreadyBuilt)
    ensures !b.built && b.stack == [] && b.root.Some? ==> r == Failure(RootAlreadySet)
    ensures r.Success? <==> !b.built && TopIsArray(b)
    ensures r.Success? ==> r.value == b.(stack := b.stack[..|b.stack| - 1])
  {
    if b.built then Failure(AlreadyBuilt)
    else if b.stack == [] && b.root.Some? then Failure(RootAlreadySet)
    else if b.stack == [] || !TopIsArray(b) then Failure(NotInArray)
    else Success(b.(stack := b.stack[..|b.stack| - 1]))
  }

  /** `Builder::Build` (json_builder.cpp:151-163): the root, once, and only
      with every container closed. */
  function Build(b: Builder): (r: Result<(Node, Builder), BuildError>)
    ensures b.built ==> r == Failure(AlreadyBuilt)
    ensures !b.built && b.root.None? ==> r == Failure(NoValue)
    ensures !b.built && b.root.Some? && b.stack != [] ==> r == Failure(Unclosed)
    ensures r.Success? <==> !b.built && b.root.Some? && b.stack == []
    ensures r.Success? ==> r.value.0 == b.root.value && r.value.1 == b.(built := true)
  {
    if b.built then Failure(AlreadyBuilt)
    else if b.root.None? then Failure(NoValue)
    else if b.stack != [] then Failure(Unclosed)
    else Success((b.root.value, b.(built := true)))
  }

  /* ---------------------------------------------------------------------
     Call sequences
     --------------------------------------------------------------------- */

  datatype Command =
    | KeyCmd(key: string)
    | ValueCmd(value: SortedNode)
    | StartDictCmd
    | StartArrayCmd
    | EndDictCmd
    | EndArrayCmd

  function Apply(b: Builder, c: Command, v: Variant): (r: Result<Builder, BuildError>)
    requires Valid(b)
    ensures r.Success? ==> Valid(r.value)
    ensures b.built ==> r == Failure(AlreadyBuilt)
  {
    if b.stack != [] then PopValid(b); ApplyValid(b, c, v)
    else ApplyValid(b, c, v)
  }

  /** The call itself; `Apply` adds that closing a container keeps a
      reachable state reachable. */
  function ApplyValid(b: Builder, c: Command, v: Variant): (r: Result<Builder, BuildError>)
    requires Valid(b)
    ensures r.Success? && !c.EndDictCmd? && !c.EndArrayCmd? ==> Valid(r.value)
    ensures r.Success? && (c.EndDictCmd? || c.EndArrayCmd?) ==> b.stack != [] && r.value == b.(stack := b.stack[..|b.stack| - 1])
  {
    match c
    case KeyCmd(k) => Key(b, k)
    case ValueCmd(x) => Value(b, x, v)
    case StartDictCmd => Start(b, Dict([]), v)
    case StartArrayCmd => Start(b, Array([]), v)
    case EndDictCmd => EndDict(b)
    case EndArrayCmd => EndArray(b)
  }

  /** The calls in order; the first that throws ends the sequence. */
  function Run(b: Builder, cmds: seq<Command>, v: Variant): (r: Result<Builder, BuildError>)
    requires Valid(b)
    ensures r.Success? ==> Valid(r.value)
    decreases |cmds|
  {
    if cmds == [] then Success(b)
    else
      var b' :- Apply(b, cmds[0], v);
      Run(b', cmds[1..], v)
  }

  /** Closing the top container leaves a reachable state. */
  lemma {:induction false} PopValid(b: Builder)
    requires Valid(b) && b.stack != []
    ensures Valid(b.(stack := b.stack[..|b.stack| - 1]))
  {
    var b' := b.(stack := b.stack[..|b.stack| - 1]);
    if Top(b').Some? {
      FindWellFormed(b.root.value, TopPath(b'));
    }
  }

  lemma {:induction false} RunConcat(b: Builder, a: seq<Command>, c: seq<Command>, v: Variant)
    requires Valid(b)
    ensures Run(b, a + c, v) == (if Run(b, a, v).Failure? then Run(b, a, v) else Run(Run(b, a, v).value, c, v))
    decreases |a|
  {
    if a == [] {
      assert a + c == c;
    } else {
      assert (a + c)[0] == a[0] && (a + c)[1..] == a[1..] + c;
      var r := Apply(b, a[0], v);
      if r.Success? {
        RunConcat(r.value, a[1..], c, v);
      }
    }
  }

  /** Once built, the builder refuses every call (json_builder.cpp:21-25,
      152-154). */
  lemma {:induction false} BuiltRefusesAll(b: Builder, cmds: seq<Command>, v: Variant)
    requires Valid(b) && b.built && cmds != []
    ensures Run(b, cmds, v) == Failure(AlreadyBuilt) && Build(b) == Failure(AlreadyBuilt)
  {
    assert Apply(b, cmds[0], v) == Failure(AlreadyBuilt);
  }

  /* ---------------------------------------------------------------------
     Lemmas about paths
     --------------------------------------------------------------------- */

  lemma {:induction false} FindWellFormed(n: Node, path: Path)
    requires WellFormed(n) && Find(n, path).Some?
    ensures WellFormed(Find(n, path).value)
    decreases |path|
  {
    if path != [] {
      match path[0]
      case Index(i) =>
        FindWellFormed(n.items[i], path[1..]);
      case Field(k) =>
        var c := Get(n.members, k).value;
        var j :| 0 <= j < |n.members| && n.members[j] == Member(k, c);
        FindWellFormed(c, path[1..]);
    }
  }

  lemma {:induction false} PutWellFormed(n: Node, path: Path, x: Node)
    requires WellFormed(n) && WellFormed(x)
    ensures WellFormed(Put(n, path, x))
    decreases |path|
  {
    if path != [] {
      match path[0]
      case Index(i) =>
        if n.Array? && i < |n.items| {
          PutWellFormed(n.items[i], path[1..], x);
        }
      case Field(k) =>
        if n.Dict? && Get(n.members, k).Some? {
          var c := Get(n.members, k).value;
          var j :| 0 <= j < |n.members| && n.members[j] == Member(k, c);
          PutWellFormed(c, path[1..], x);
          var y := Put(c, path[1..], x);
          var r := Replace(n.members, k, y);
          forall i, i' | 0 <= i < i' < |r| ensures KeysOrdered(r, i, i') {
            ReplaceAt(n.members, k, y, i);
            ReplaceAt(n.members, k, y, i');
            assert KeysOrdered(n.members, i, i');
          }
          forall i | 0 <= i < |r| ensures WellFormed(r[i].value) {
            ReplaceAt(n.members, k, y, i);
          }
        }
    }
  }

  /** What `Replace` leaves at position i. */
  lemma {:induction false} ReplaceAt(ms: seq<Member>, key: string, v: Node, i: nat)
    requires i < |ms|
    ensures Replace(ms, key, v)[i].key == ms[i].key
    ensures Replace(ms, key, v)[i].value == (if ms[i].key == key then v else ms[i].value)
  {
    if i > 0 {
      ReplaceAt(ms[1..], key, v, i - 1);
    }
  }

  lemma {:induction false} GetReplace(ms: seq<Member>, key: string, v: Node)
    requires Get(ms, key).Some?
    ensures Get(Replace(ms, key, v), key) == Some(v)
  {
    if ms[0].key != key {
      GetReplace(ms[1..], key, v);
    }
  }

  /** In a map with distinct keys, the key at i finds the value at i. */
  lemma {:induction false} GetAt(ms: seq<Member>, i: nat)
    requires SortedKeys(ms) && i < |ms|
    ensures Get(ms, ms[i].key) == Some(ms[i].value)
  {
    if i > 0 {
      assert KeysOrdered(ms, 0, i);
      StrLessIrreflexive(ms[i].key);
      SortedTail(ms);
      GetAt(ms[1..], i - 1);
    }
  }

  /** Putting x where a path leads makes the path lead to x. */
  lemma {:induction false} FindPut(n: Node, path: Path, x: Node)
    requires Find(n, path).Some?
    ensures Find(Put(n, path, x), path) == Some(x)
    decreases |path|
  {
    if path != [] {
      match path[0]
      case Index(i) =>
        FindPut(n.items[i], path[1..], x);
      case Field(k) =>
        var c := Get(n.members, k).value;
        FindPut(c, path[1..], x);
        GetReplace(n.members, k, Put(c, path[1..], x));
    }
  }

  /** Putting twice at the same path keeps the second. */
  lemma {:induction false} PutPut(n: Node, path: Path, x: Node, y: Node)
    requires Find(n, path).Some?
    ensures Put(Put(n, path, x), path, y) == Put(n, path, y)
    decreases |path|
  {
    if path != [] {
      match path[0]
      case Index(i) =>
        PutPut(n.items[i], path[1..], x, y);
      case Field(k) =>
        var c := Get(n.members, k).value;
        GetReplace(n.members, k, Put(c, path[1..], x));
        PutPut(c, path[1..], x, y);
        ReplaceReplace(n.members, k, Put(c, path[1..], x), Put(c, path[1..], y));
    }
  }

  lemma {:induction false} ReplaceReplace(ms: seq<Member>, key: string, a: Node, c: Node)
    ensures Replace(Replace(ms, key, a), key, c) == Replace(ms, key, c)
  {
    if ms != [] {
      ReplaceReplace(ms[1..], key, a, c);
      assert Replace(ms, key, a)[1..] == Replace(ms[1..], key, a);
    }
  }

  /** Putting back what a path finds changes nothing. */
  lemma {:induction false} PutFound(n: Node, path: Path)
    requires WellFormed(n) && Find(n, path).Some?
    ensures Put(n, path, Find(n, path).value) == n
    decreases |path|
  {
    if path != [] {
      match path[0]
      case Index(i) =>
        PutFound(n.items[i], path[1..]);
        assert n.items[i := n.items[i]] == n.items;
      case Field(k) =>
        var ms := n.members;
        var c := Get(ms, k).value;
        var j :| 0 <= j < |ms| && ms[j] == Member(k, c);
        PutFound(c, path[1..]);
        var r := Replace(ms, k, c);
        forall i | 0 <= i < |r| ensures r[i] == ms[i] {
          ReplaceAt(ms, k, c, i);
          if ms[i].key == k {
            GetAt(ms, i);
          }
        }
    }
  }

  /** One step past a path: where it leads inside the node the path finds. */
  lemma {:induction false} FindExtend(n: Node, path: Path, st: Step)
    requires Find(n, path).Some?
    ensures Find(n, path + [st]) == Find(Find(n, path).value, [st])
    decreases |path|
  {
    if path == [] {
      assert path + [st] == [st];
    } else {
      assert (path + [st])[0] == path[0] && (path + [st])[1..] == path[1..] + [st];
      match path[0]
      case Index(i) =>
        FindExtend(n.items[i], path[1..], st);
      case Field(k) =>
        FindExtend(Get(n.members, k).value, path[1..], st);
    }
  }

  /** Putting one step past a path is putting, at the path, the node found
      there changed one step down. */
  lemma {:induction false} PutExtend(n: Node, path: Path, st: Step, y: Node)
    requires Find(n, path).Some?
    ensures Put(n, path + [st], y) == Put(n, path, Put(Find(n, path).value, [st], y))
    decreases |path|
  {
    if path == [] {
      assert path + [st] == [st];
    } else {
      assert (path + [st])[0] == path[0] && (path + [st])[1..] == path[1..] + [st];
      match path[0]
      case Index(i) =>
        PutExtend(n.items[i], path[1..], st, y);
      case Field(k) =>
        PutExtend(Get(n.members, k).value, path[1..], st, y);
    }
  }

  /** After the node at a path is replaced by `parent`, one step further
      leads where that step leads in `parent`. */
  lemma {:induction false} FindChild(n: Node, path: Path, parent: Node, st: Step)
    requires Find(n, path).Some?
    ensures Find(Put(n, path, parent), path + [st]) == Find(parent, [st])
  {
    FindPut(n, path, parent);
    FindExtend(Put(n, path, parent), path, st);
  }

  /** A key after every key present is found at the end. */
  lemma {:induction false} GetLast(ms: seq<Member>, k: string, a: Node)
    requires forall i :: 0 <= i < |ms| ==> StrLess(ms[i].key, k)
    ensures Get(ms + [Member(k, a)], k) == Some(a)
    decreases ms
  {
    var t := ms + [Member(k, a)];
    if ms != [] {
      StrLessIrreflexive(k);
      assert t[0].key != k && t[1..] == ms[1..] + [Member(k, a)];
      GetLast(ms[1..], k, a);
    }
  }

  /** ... and replaced there. */
  lemma {:induction false} ReplaceLast(ms: seq<Member>, k: string, a: Node, c: Node)
    requires forall i :: 0 <= i < |ms| ==> StrLess(ms[i].key, k)
    ensures Replace(ms + [Member(k, a)], k, c) == ms + [Member(k, c)]
    decreases ms
  {
    var t := ms + [Member(k, a)];
    if ms != [] {
      StrLessIrreflexive(k);
      assert t[0] == ms[0] && ms[0].key != k && t[1..] == ms[1..] + [Member(k, a)];
      ReplaceLast(ms[1..], k, a, c);
      assert [ms[0]] + (ms[1..] + [Member(k, c)]) == ms + [Member(k, c)];
    }
  }

  /* ---------------------------------------------------------------------
     Emitting a tree as builder calls, and building it back
     --------------------------------------------------------------------- */

  /** The calls that build n: a scalar as one `Value`; a container opened,
      filled in order and closed. */
  function Emit(n: SortedNode): seq<Command>
    decreases n, 1
  {
    match n
    case Array(items) => [StartArrayCmd] + EmitItems(items) + [EndArrayCmd]
    case Dict(ms) => [StartDictCmd] + EmitMembers(ms) + [EndDictCmd]
    case _ => [ValueCmd(n)]
  }

  function EmitItems(items: seq<Node>): seq<Command>
    requires forall i :: 0 <= i < |items| ==> WellFormed(items[i])
    decreases items, 0
  {
    if items == [] then [] else Emit(items[0]) + EmitItems(items[1..])
  }

  function EmitMembers(ms: seq<Member>): seq<Command>
    requires forall i :: 0 <= i < |ms| ==> WellFormed(ms[i].value)
    decreases ms, 0
  {
    if ms == [] then [] else [KeyCmd(ms[0].key)] + Emit(ms[0].value) + EmitMembers(ms[1..])
  }

  /** A state in which a value can be added under the top of the stack:
      an array with no stray key, or a map whose pending key comes after
      every key present. */
  predicate Ready(b: Builder) {
    && Valid(b) && !b.built && b.stack != []
    && ((TopIsArray(b) && b.pendingKey.None?)
        || (TopIsMap(b) && b.pendingKey.Some?
            && forall i :: 0 <= i < |Top(b).value.members| ==> StrLess(Top(b).value.members[i].key, b.pendingKey.value)))
  }

  /** In a ready state the entry pushed after an empty container is added
      is that container, whichever variant runs, and filling it in place
      gives what adding the filled container directly gives. */
  lemma {:induction false} OpenInPlace(b: Builder, empty: Node, n: Node, v: Variant)
    requires Ready(b)
    ensures Find(Filled(b, empty), [ChildStep(b, empty, v)]) == Some(empty)
    ensures Put(Filled(b, empty), [ChildStep(b, empty, v)], n) == Filled(b, n)
  {
    var st := ChildStep(b, empty, v);
    assert [st][1..] == [];
    if TopIsArray(b) {
      var items := Top(b).value.items;
      assert (items + [empty])[|items| := n] == items + [n];
    } else {
      var ms := Top(b).value.members;
      var k := b.pendingKey.value;
      FindWellFormed(b.root.value, TopPath(b));
      EmplaceGreatest(ms, k, empty);
      EmplaceGreatest(ms, k, n);
      assert st == Field(k);
      GetLast(ms, k, empty);
      ReplaceLast(ms, k, empty, n);
    }
  }

  /** Emitting n under an open container has the effect of one `Value(n)`. */
  lemma {:induction false} EmitInto(b: Builder, n: SortedNode, v: Variant)
    requires Ready(b)
    ensures Value(b, n, v).Success? && Run(b, Emit(n), v) == Value(b, n, v)
    decreases n, 2
  {
    match n
    case Array(_) => ArrayInto(b, n, v);
    case Dict(_) => DictInto(b, n, v);
    case _ => assert Emit(n)[1..] == [];
  }

  /** Emitting an array under an open container: `StartArray`, the
      elements, `EndArray`. */
  lemma {:induction false} ArrayInto(b: Builder, n: SortedNode, v: Variant)
    requires Ready(b) && n.Array?
    ensures Value(b, n, v).Success? && Run(b, Emit(n), v) == Value(b, n, v)
    decreases n, 1
  {
    var empty: SortedNode := Array([]);
    var p := TopPath(b);
    var c := p + [ChildStep(b, empty, v)];
    var R2 := Put(b.root.value, p, Filled(b, empty));
    var b2 := b.(root := Some(R2), stack := b.stack + [c], pendingKey := None);
    StartReady(b, empty, StartArrayCmd, v);
    assert [] + n.items == n.items;
    RunItems(b2, n.items, v);
    ContainerWrap(b, empty, n, StartArrayCmd, EndArrayCmd, EmitItems(n.items), v);
    EmitArray(n);
  }

  /** Emitting a dictionary under an open container: `StartDict`, the
      members in key order, `EndDict`. */
  lemma {:induction false} DictInto(b: Builder, n: SortedNode, v: Variant)
    requires Ready(b) && n.Dict?
    ensures Value(b, n, v).Success? && Run(b, Emit(n), v) == Value(b, n, v)
    decreases n, 1
  {
    var empty: SortedNode := Dict([]);
    var p := TopPath(b);
    var c := p + [ChildStep(b, empty, v)];
    var R2 := Put(b.root.value, p, Filled(b, empty));
    var b2 := b.(root := Some(R2), stack := b.stack + [c], pendingKey := None);
    StartReady(b, empty, StartDictCmd, v);
    assert [] + n.members == n.members;
    RunMembers(b2, n.members, v);
    ContainerWrap(b, empty, n, StartDictCmd, EndDictCmd, EmitMembers(n.members), v);
    EmitDict(n);
  }

  /** Opening a container, running a body that fills it with n, and
      closing it adds n as a value. */
  lemma {:induction false} ContainerWrap(b: Builder, empty: SortedNode, n: SortedNode, open: Command, close: Command,
                      body: seq<Command>, v: Variant)
    requires Ready(b)
    requires || (open == StartArrayCmd && close == EndArrayCmd && empty == Array([]) && n.Array?)
             || (open == StartDictCmd && close == EndDictCmd && empty == Dict([]) && n.Dict?)
    requires var p := TopPath(b);
      var R2 := Put(b.root.value, p, Filled(b, empty));
      var b2 := b.(root := Some(R2), stack := b.stack + [p + [ChildStep(b, empty, v)]], pendingKey := None);
      Valid(b2) && Run(b2, body, v) == Success(b2.(root := Some(Put(R2, p + [ChildStep(b, empty, v)], n))))
    ensures Value(b, n, v).Success? && Run(b, [open] + (body + [close]), v) == Value(b, n, v)
  {
    var p := TopPath(b);
    var c := p + [ChildStep(b, empty, v)];
    var R2 := Put(b.root.value, p, Filled(b, empty));
    var b2 := b.(root := Some(R2), stack := b.stack + [c], pendingKey := None);
    StartReady(b, empty, open, v);
    var b3 := b2.(root := Some(Put(R2, c, n)));
    FindPut(R2, c, n);
    CloseReady(b3, n, close, v);
    assert b3.stack[..|b3.stack| - 1] == b.stack;
    RunConcat(b2, body, [close], v);
    assert Run(b2, body + [close], v) == Success(b3.(stack := b.stack));
    RunCons(b, open, body + [close], v);
    FillInPlace(b, empty, n, v);
    ValueReady(b, n, v);
    assert Value(b, n, v) == Success(b3.(stack := b.stack));
  }

  /** `StartArray` or `StartDict` in a ready state pushes the empty
      container it adds. */
  lemma {:induction false} StartReady(b: Builder, empty: SortedNode, open: Command, v: Variant)
    requires Ready(b)
    requires (open == StartArrayCmd && empty == Array([])) || (open == StartDictCmd && empty == Dict([]))
    ensures var p := TopPath(b);
      var b2 := b.(root := Some(Put(b.root.value, p, Filled(b, empty))), stack := b.stack + [p + [ChildStep(b, empty, v)]], pendingKey := None);
      && Apply(b, open, v) == Success(b2)
      && Top(b2) == Some(empty)
  {
    StartReadyApply(b, empty, open, v);
    StartReadyTop(b, empty, v);
  }

  lemma {:induction false} StartReadyApply(b: Builder, empty: SortedNode, open: Command, v: Variant)
    requires Ready(b)
    requires (open == StartArrayCmd && empty == Array([])) || (open == StartDictCmd && empty == Dict([]))
    ensures var p := TopPath(b);
      Apply(b, open, v)
      == Success(b.(root := Some(Put(b.root.value, p, Filled(b, empty))), stack := b.stack + [p + [ChildStep(b, empty, v)]], pendingKey := None))
  {
    assert Apply(b, open, v) == Start(b, empty, v);
    var att := Attach(b, empty, v);
    assert Start(b, empty, v) == Success(att.0.(stack := att.0.stack + [att.1.value]));
  }

  lemma {:induction false} StartReadyTop(b: Builder, empty: SortedNode, v: Variant)
    requires Ready(b) && (empty == Array([]) || empty == Dict([]))
    ensures var p := TopPath(b);
      Top(b.(root := Some(Put(b.root.value, p, Filled(b, empty))), stack := b.stack + [p + [ChildStep(b, empty, v)]], pendingKey := None))
      == Some(empty)
  {
    OpenInPlace(b, empty, empty, v);
    FindChild(b.root.value, TopPath(b), Filled(b, empty), ChildStep(b, empty, v));
  }

  /** The matching `End` pops a container on top. */
  lemma {:induction false} CloseReady(b: Builder, n: Node, close: Command, v: Variant)
    requires Valid(b) && !b.built && b.stack != [] && Top(b) == Some(n)
    requires close == (if n.Array? then EndArrayCmd else EndDictCmd) && (n.Array? || n.Dict?)
    ensures Run(b, [close], v) == Success(b.(stack := b.stack[..|b.stack| - 1]))
  {
    assert [close][1..] == [];
  }

  lemma {:induction false} EmitArray(n: SortedNode)
    requires n.Array?
    ensures Emit(n) == [StartArrayCmd] + (EmitItems(n.items) + [EndArrayCmd])
  {
  }

  lemma {:induction false} EmitDict(n: SortedNode)
    requires n.Dict?
    ensures Emit(n) == [StartDictCmd] + (EmitMembers(n.members) + [EndDictCmd])
  {
  }

  lemma {:induction false} RunCons(b: Builder, c: Command, rest: seq<Command>, v: Variant)
    requires Valid(b)
    ensures Run(b, [c] + rest, v) == (if Apply(b, c, v).Failure? then Apply(b, c, v) else Run(Apply(b, c, v).value, rest, v))
  {
    assert ([c] + rest)[0] == c && ([c] + rest)[1..] == rest;
  }

  /** Filling the pushed container in place builds the tree that adding
      the filled container directly builds. */
  lemma {:induction false} FillInPlace(b: Builder, empty: Node, n: Node, v: Variant)
    requires Ready(b)
    ensures var p := TopPath(b); var R := b.root.value;
      Put(Put(R, p, Filled(b, empty)), p + [ChildStep(b, empty, v)], n) == Put(R, p, Filled(b, n))
  {
    var p := TopPath(b);
    var R := b.root.value;
    var parent := Filled(b, empty);
    OpenInPlace(b, empty, n, v);
    FindPut(R, p, parent);
    PutExtend(Put(R, p, parent), p, ChildStep(b, empty, v), n);
    PutPut(R, p, parent, Filled(b, n));
  }

  lemma {:induction false} EmitMembersCons(ms: seq<Member>)
    requires ms != [] && forall i :: 0 <= i < |ms| ==> WellFormed(ms[i].value)
    ensures EmitMembers(ms) == [KeyCmd(ms[0].key)] + (Emit(ms[0].value) + EmitMembers(ms[1..]))
  {
    var key, value, rest := [KeyCmd(ms[0].key)], Emit(ms[0].value), EmitMembers(ms[1..]);
    assert EmitMembers(ms) == key + value + rest;
    AppendAssoc(key, value, rest);
  }

  /** The keys before a sorted tail are sorted and all smaller than its head. */
  lemma {:induction false} SortedSplit(acc: seq<Member>, ms: seq<Member>)
    requires ms != [] && SortedKeys(acc + ms)
    ensures SortedKeys(acc)
    ensures forall i :: 0 <= i < |acc| ==> StrLess(acc[i].key, ms[0].key)
  {
    var all := acc + ms;
    forall i | 0 <= i < |acc| ensures StrLess(acc[i].key, ms[0].key) {
      assert KeysOrdered(all, i, |acc|);
    }
    forall i, j | 0 <= i < j < |acc| ensures KeysOrdered(acc, i, j) {
      assert KeysOrdered(all, i, j);
    }
  }

  /** What `Value` does in a ready state. */
  lemma {:induction false} ValueReady(b: Builder, x: SortedNode, v: Variant)
    requires Ready(b)
    ensures Value(b, x, v) == Success(b.(root := Some(Put(b.root.value, TopPath(b), Filled(b, x))), pendingKey := None))
  {
  }

  lemma {:induction false} AppendHead<T>(a: seq<T>, s: seq<T>)
    requires s != []
    ensures (a + [s[0]]) + s[1..] == a + s
  {
    assert s == [s[0]] + s[1..];
  }

  /** Emitting elements into an open array appends them. */
  lemma {:induction false} RunItems(b: Builder, items: seq<Node>, v: Variant)
    requires Valid(b) && !b.built && b.stack != [] && TopIsArray(b) && b.pendingKey.None?
    requires forall i :: 0 <= i < |items| ==> WellFormed(items[i])
    ensures Run(b, EmitItems(items), v)
      == Success(b.(root := Some(Put(b.root.value, TopPath(b), Array(Top(b).value.items + items)))))
    decreases items, 2
  {
    var p := TopPath(b);
    var R := b.root.value;
    var acc := Top(b).value.items;
    if items == [] {
      assert acc + items == acc;
      PutFound(R, p);
    } else {
      var b1 := RunItemsHead(b, items, v);
      RunItems(b1, items[1..], v);
      RunItemsTail(b, b1, items, v);
    }
  }

  /** The first item, added last to the open array. */
  lemma {:induction false} RunItemsHead(b: Builder, items: seq<Node>, v: Variant) returns (b1: Builder)
    requires Valid(b) && !b.built && b.stack != [] && TopIsArray(b) && b.pendingKey.None?
    requires forall i :: 0 <= i < |items| ==> WellFormed(items[i])
    requires items != []
    ensures b1 == b.(root := Some(Put(b.root.value, TopPath(b), Array(Top(b).value.items + [items[0]]))))
    ensures Valid(b1) && !b1.built && b1.stack == b.stack && b1.pendingKey.None?
    ensures Top(b1) == Some(Array(Top(b).value.items + [items[0]])) && TopIsArray(b1)
    ensures forall i :: 0 <= i < |items[1..]| ==> WellFormed(items[1..][i])
    ensures Run(b, EmitItems(items), v) == Run(b1, EmitItems(items[1..]), v)
    decreases items, 1
  {
    var x: SortedNode := items[0];
    EmitInto(b, x, v);
    ValueReady(b, x, v);
    b1 := Value(b, x, v).value;
    RunConcat(b, Emit(x), EmitItems(items[1..]), v);
  }

  /** The rest of the items added after the first is all of them added. */
  lemma {:induction false} RunItemsTail(b: Builder, b1: Builder, items: seq<Node>, v: Variant)
    requires Valid(b) && !b.built && b.stack != [] && TopIsArray(b) && items != []
    requires b1 == b.(root := Some(Put(b.root.value, TopPath(b), Array(Top(b).value.items + [items[0]]))))
    requires Valid(b1) && Top(b1) == Some(Array(Top(b).value.items + [items[0]]))
    requires forall i :: 0 <= i < |items| ==> WellFormed(items[i])
    requires Run(b, EmitItems(items), v) == Run(b1, EmitItems(items[1..]), v)
    requires Run(b1, EmitItems(items[1..]), v)
      == Success(b1.(root := Some(Put(b1.root.value, TopPath(b1), Array(Top(b1).value.items + items[1..])))))
    ensures Run(b, EmitItems(items), v)
      == Success(b.(root := Some(Put(b.root.value, TopPath(b), Array(Top(b).value.items + items)))))
  {
    var acc := Top(b).value.items;
    var R, p := b.root.value, TopPath(b);
    assert TopPath(b1) == p;
    AppendHead(acc, items);
    assert Top(b1).value.items + items[1..] == acc + items;
    PutPut(R, p, Array(acc + [items[0]]), Array(acc + items));
    assert Put(b1.root.value, p, Array(acc + items)) == Put(R, p, Array(acc + items));
  }

  /** Emitting members in key order into an open map appends them. */
  lemma {:induction false} RunMembers(b: Builder, ms: seq<Member>, v: Variant)
    requires Valid(b) && !b.built && b.stack != [] && TopIsMap(b) && b.pendingKey.None?
    requires forall i :: 0 <= i < |ms| ==> WellFormed(ms[i].value)
    requires SortedKeys(Top(b).value.members + ms)
    ensures Run(b, EmitMembers(ms), v)
      == Success(b.(root := Some(Put(b.root.value, TopPath(b), Dict(Top(b).value.members + ms)))))
    decreases ms, 2
  {
    var p := TopPath(b);
    var R := b.root.value;
    var acc := Top(b).value.members;
    if ms == [] {
      assert acc + ms == acc;
      PutFound(R, p);
    } else {
      var b1 := RunMembersHead(b, ms, v);
      RunMembers(b1, ms[1..], v);
      RunMembersTail(b, b1, ms, v);
    }
  }

  /** The first member: its key, then its value, added last to the open map. */
  lemma {:induction false} RunMembersHead(b: Builder, ms: seq<Member>, v: Variant) returns (b1: Builder)
    requires Valid(b) && !b.built && b.stack != [] && TopIsMap(b) && b.pendingKey.None?
    requires forall i :: 0 <= i < |ms| ==> WellFormed(ms[i].value)
    requires ms != [] && SortedKeys(Top(b).value.members + ms)
    ensures b1 == b.(root := Some(Put(b.root.value, TopPath(b), Dict(Top(b).value.members + [ms[0]]))))
    ensures Valid(b1) && !b1.built && b1.stack == b.stack && b1.pendingKey.None?
    ensures Top(b1) == Some(Dict(Top(b).value.members + [ms[0]]))
    ensures TopIsMap(b1) && SortedKeys(Top(b1).value.members + ms[1..])
    ensures forall i :: 0 <= i < |ms[1..]| ==> WellFormed(ms[1..][i].value)
    ensures Run(b, EmitMembers(ms), v) == Run(b1, EmitMembers(ms[1..]), v)
    decreases ms, 1
  {
    AppendHead(Top(b).value.members, ms);
    var acc := Top(b).value.members;
    var k := ms[0].key;
    var x: SortedNode := ms[0].value;
    var b0 := b.(pendingKey := Some(k));
    assert Key(b, k) == Success(b0);
    SortedSplit(acc, ms);
    EmitInto(b0, x, v);
    ValueReady(b0, x, v);
    EmplaceGreatest(acc, k, x);
    b1 := Value(b0, x, v).value;
    EmitMembersCons(ms);
    RunConcat(b0, Emit(x), EmitMembers(ms[1..]), v);
  }

  /** The rest of the members added after the first is all of them added. */
  lemma {:induction false} RunMembersTail(b: Builder, b1: Builder, ms: seq<Member>, v: Variant)
    requires Valid(b) && !b.built && b.stack != [] && TopIsMap(b) && ms != []
    requires b1 == b.(root := Some(Put(b.root.value, TopPath(b), Dict(Top(b).value.members + [ms[0]]))))
    requires Valid(b1) && Top(b1) == Some(Dict(Top(b).value.members + [ms[0]]))
    requires forall i :: 0 <= i < |ms| ==> WellFormed(ms[i].value)
    requires Run(b, EmitMembers(ms), v) == Run(b1, EmitMembers(ms[1..]), v)
    requires Run(b1, EmitMembers(ms[1..]), v)
      == Success(b1.(root := Some(Put(b1.root.value, TopPath(b1), Dict(Top(b1).value.members + ms[1..])))))
    ensures Run(b, EmitMembers(ms), v)
      == Success(b.(root := Some(Put(b.root.value, TopPath(b), Dict(Top(b).value.members + ms)))))
  {
    var acc := Top(b).value.members;
    var R, p := b.root.value, TopPath(b);
    assert TopPath(b1) == p;
    AppendHead(acc, ms);
    assert Top(b1).value.members + ms[1..] == acc + ms;
    PutPut(R, p, Dict(acc + [ms[0]]), Dict(acc + ms));
    assert Put(b1.root.value, p, Dict(acc + ms)) == Put(R, p, Dict(acc + ms));
  }

  /** Building the calls `Emit(n)` makes gives n back, with either
      variant: emitted in key order, every member opened is the last one. */
  lemma {:induction false} BuildEmit(n: SortedNode, v: Variant)
    ensures Run(NewBuilder, Emit(n), v) == Success(NewBuilder.(root := Some(n)))
    ensures Build(Run(NewBuilder, Emit(n), v).value) == Success((n, Builder(Some(n), [], None, true)))
  {
    match n
    case Array(items) =>
      var b1 := Builder(Some(Array([])), [[]], None, false);
      assert Apply(NewBuilder, StartArrayCmd, v) == Success(b1);
      assert [] + items == items;
      RunItems(b1, items, v);
      var b2 := Builder(Some(n), [[]], None, false);
      CloseReady(b2, n, EndArrayCmd, v);
      RunConcat(b1, EmitItems(items), [EndArrayCmd], v);
      RunCons(NewBuilder, StartArrayCmd, EmitItems(items) + [EndArrayCmd], v);
      EmitArray(n);
    case Dict(ms) =>
      var b1 := Builder(Some(Dict([])), [[]], None, false);
      assert Apply(NewBuilder, StartDictCmd, v) == Success(b1);
      assert [] + ms == ms;
      RunMembers(b1, ms, v);
      var b2 := Builder(Some(n), [[]], None, false);
      CloseReady(b2, n, EndDictCmd, v);
      RunConcat(b1, EmitMembers(ms), [EndDictCmd], v);
      RunCons(NewBuilder, StartDictCmd, EmitMembers(ms) + [EndDictCmd], v);
      EmitDict(n);
    case _ =>
      assert Emit(n)[1..] == [];
  }

  /* ---------------------------------------------------------------------
     Opening a container under a key that is not the greatest
     --------------------------------------------------------------------- */

  /** `StartDict().Key("b").Value(1).Key("a").StartArray().Value(2)
      .EndArray().EndDict()`, a sequence the context classes of
      json_builder.h accept. */
  const Sample: seq<Command> := [
    StartDictCmd, KeyCmd("b"), ValueCmd(Int(1)), KeyCmd("a"),
    StartArrayCmd, ValueCmd(Int(2)), EndArrayCmd, EndDictCmd]

  /** One call of a sequence, as a step of `Run`. */
  lemma {:induction false} RunStep(b: Builder, b': Builder, cs: seq<Command>, k: nat, v: Variant)
    requires Valid(b) && k < |cs| && Apply(b, cs[k], v) == Success(b')
    ensures Run(b, cs[k..], v) == Run(b', cs[k + 1..], v)
  {
    assert cs[k..][0] == cs[k] && cs[k..][1..] == cs[k + 1..];
  }

  /** The states `Sample` passes through: {} open; key "b" pending;
      {"b": 1}; key "a" pending. */
  const Opened := Builder(Some(Dict([])), [[]], None, false)
  const KeyedB := Opened.(pendingKey := Some("b"))
  const HoldsB := Builder(Some(Dict([Member("b", Int(1))])), [[]], None, false)
  const KeyedA := HoldsB.(pendingKey := Some("a"))

  /** After `StartArray`: the array sits under "a", and the entry pushed
      is "b" as written, "a" as intended. */
  function ArrayOpened(v: Variant): (b: Builder)
    ensures Valid(b)
  {
    var pushed := if v == AsWritten then "b" else "a";
    var ms := [Member("a", Array([])), Member("b", Int(1))];
    assert KeysOrdered(ms, 0, 1);
    var b := Builder(Some(Dict(ms)), [[], [Field(pushed)]], None, false);
    assert TopPath(b) == [Field(pushed)] && [Field(pushed)][1..] == [];
    assert ms[1..] == [Member("b", Int(1))] && Get(ms, "b") == Some(Int(1));
    assert Get(ms, pushed).Some?;
    var c := Get(ms, pushed).value;
    assert Find(c, []) == Some(c);
    assert Find(Dict(ms), [Field(pushed)]) == Some(c);
    assert Top(b) == Some(c);
    b
  }

  const SampleTree := Dict([Member("a", Array([Int(2)])), Member("b", Int(1))])

  lemma {:induction false} SampleOpen(v: Variant)
    ensures Apply(NewBuilder, StartDictCmd, v) == Success(Opened)
    ensures Apply(Opened, KeyCmd("b"), v) == Success(KeyedB)
  {
  }

  lemma {:induction false} SampleFirstValue(v: Variant)
    ensures Apply(KeyedB, ValueCmd(Int(1)), v) == Success(HoldsB)
    ensures Apply(HoldsB, KeyCmd("a"), v) == Success(KeyedA)
  {
    assert Emplace([], "b", Int(1)) == [Member("b", Int(1))];
  }

  lemma {:induction false} SampleStartArray(v: Variant)
    ensures Apply(KeyedA, StartArrayCmd, v) == Success(ArrayOpened(v))
  {
    var ms := [Member("a", Array([])), Member("b", Int(1))];
    assert StrLess("a", "b");
    assert Emplace([Member("b", Int(1))], "a", Array([])) == ms;
    assert Top(KeyedA) == Some(Dict([Member("b", Int(1))]));
    assert Filled(KeyedA, Array([])) == Dict(ms);
    assert Last(ms).key == "b";
    var step := ChildStep(KeyedA, Array([]), v);
    assert step == Field(if v == AsWritten then "b" else "a");
    var att := Attach(KeyedA, Array([]), v);
    assert TopPath(KeyedA) == [];
    assert Put(KeyedA.root.value, [], Dict(ms)) == Dict(ms);
    assert [] + [step] == [step];
    assert att.0 == KeyedA.(root := Some(Dict(ms)), pendingKey := None);
    assert att.1 == Some([step]);
    assert KeyedA.stack + [[step]] == [[], [step]];
    assert Start(KeyedA, Array([]), v) == Success(att.0.(stack := [[], [step]]));
  }

  lemma {:induction false} SampleFirstCalls(v: Variant)
    ensures Run(NewBuilder, Sample, v) == Run(ArrayOpened(v), Sample[5..], v)
  {
    SampleOpen(v);
    SampleFirstValue(v);
    SampleStartArray(v);
    RunStep(NewBuilder, Opened, Sample, 0, v);
    RunStep(Opened, KeyedB, Sample, 1, v);
    RunStep(KeyedB, HoldsB, Sample, 2, v);
    RunStep(HoldsB, KeyedA, Sample, 3, v);
    RunStep(KeyedA, ArrayOpened(v), Sample, 4, v);
    assert Sample[0..] == Sample;
  }

  /** As written the top is the entry "b", which holds 1. */
  lemma SampleDangling()
    ensures Apply(ArrayOpened(AsWritten), ValueCmd(Int(2)), AsWritten) == Success(ArrayOpened(AsWritten))
    ensures Apply(ArrayOpened(AsWritten), EndArrayCmd, AsWritten) == Failure(NotInArray)
  {
    var b := ArrayOpened(AsWritten);
    var ms := b.root.value.members;
    assert TopPath(b) == [Field("b")] && [Field("b")][1..] == [];
    assert Get(ms, "b") == Some(Int(1));
    assert Top(b) == Some(Int(1));
  }

  /** As written, `StartArray` under "a" pushes the entry "b" (the
      greatest key), which holds 1: `Value(2)` then adds nothing and
      `EndArray` throws. */
  lemma SampleAsWritten()
    ensures Run(NewBuilder, Sample, AsWritten) == Failure(NotInArray)
  {
    var b := ArrayOpened(AsWritten);
    SampleFirstCalls(AsWritten);
    SampleDangling();
    RunStep(b, b, Sample, 5, AsWritten);
    assert Sample[6..][0] == EndArrayCmd;
  }

  /** As intended the top is the array under "a": `Value(2)` fills it and
      the two `End` calls close it and the root. */
  lemma SampleFilled()
    ensures var filled := ArrayOpened(Corrected).(root := Some(SampleTree));
      && Apply(ArrayOpened(Corrected), ValueCmd(Int(2)), Corrected) == Success(filled)
      && Apply(filled, EndArrayCmd, Corrected) == Success(filled.(stack := [[]]))
      && Apply(filled.(stack := [[]]), EndDictCmd, Corrected) == Success(NewBuilder.(root := Some(SampleTree)))
  {
    var b := ArrayOpened(Corrected);
    var ms := b.root.value.members;
    assert TopPath(b) == [Field("a")] && [Field("a")][1..] == [];
    assert Get(ms, "a") == Some(Array([]));
    assert Top(b) == Some(Array([]));
    assert Filled(b, Int(2)) == Array([Int(2)]);
    assert Replace(ms, "a", Array([Int(2)])) == SampleTree.members;
    assert Put(b.root.value, [Field("a")], Array([Int(2)])) == SampleTree;
    var filled := b.(root := Some(SampleTree));
    assert Get(SampleTree.members, "a") == Some(Array([Int(2)]));
    assert Top(filled) == Some(Array([Int(2)]));
    assert filled.stack[..|filled.stack| - 1] == [[]];
    assert KeysOrdered(SampleTree.members, 0, 1);
    assert Top(filled.(stack := [[]])) == Some(SampleTree);
  }

  /** Pushing the entry under the key just used builds
      {"a": [2], "b": 1}. */
  lemma SampleCorrected()
    ensures Run(NewBuilder, Sample, Corrected) == Success(NewBuilder.(root := Some(SampleTree)))
  {
    var b := ArrayOpened(Corrected);
    SampleFirstCalls(Corrected);
    SampleFilled();
    var filled := b.(root := Some(SampleTree));
    var closed := filled.(stack := [[]]);
    RunStep(b, filled, Sample, 5, Corrected);
    RunStep(filled, closed, Sample, 6, Corrected);
    RunStep(closed, NewBuilder.(root := Some(SampleTree)), Sample, 7, Corrected);
    assert Sample[8..] == [];
  }
}
