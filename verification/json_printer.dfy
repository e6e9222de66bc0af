/** The pretty-printer of json.cpp:174-243 and :332-336: four-space
    indentation, one element or member per line, strings escaped with the
    same five escapes the reader understands.  How an ostream renders a
    double is not modelled; it is the parameter `fmt`. */
module JsonPrinter {
  import opened Json

  type DoubleFormat = real -> string

  const IndentStep: nat := 4

  /** The escape of one string character (json.cpp:188-195). */
  function EscapeChar(ch: char): (r: string)
    ensures ch in "\n\t\r\"\\" ==> |r| == 2 && r[0] == '\\'
    ensures ch !in "\n\t\r\"\\" ==> r == [ch]
  {
    match ch
    case '\n' => "\\n"
    case '\t' => "\\t"
    case '\r' => "\\r"
    case '"' => "\\\""
    case '\\' => "\\\\"
    case _ => [ch]
  }

  /** A quote at position k of r is preceded by a backslash. */
  predicate QuoteEscapedAt(r: string, k: nat)
    requires k < |r|
  {
    r[k] == '"' ==> 0 < k && r[k - 1] == '\\'
  }

  /** The escaped body of a string. */
  function Escape(str: string): (r: string)
    ensures |r| >= |str|
    ensures (forall k :: 0 <= k < |str| ==> str[k] !in "\n\t\r\"\\") ==> r == str
  {
    if str == [] then [] else EscapeChar(str[0]) + Escape(str[1..])
  }

  /** No raw line break survives escaping, and every quote in the result
      is preceded by a backslash. */
  lemma {:induction false} EscapeSafe(str: string)
    ensures forall k :: 0 <= k < |Escape(str)| ==> Escape(str)[k] != '\n' && Escape(str)[k] != '\r'
    ensures forall k :: 0 <= k < |Escape(str)| ==> QuoteEscapedAt(Escape(str), k)
  {
    if str != [] {
      var head := EscapeChar(str[0]);
      var tail := Escape(str[1..]);
      var r := Escape(str);
      EscapeSafe(str[1..]);
      assert r == head + tail;
      forall k | 0 <= k < |r| ensures r[k] != '\n' && r[k] != '\r' && QuoteEscapedAt(r, k) {
        if k >= |head| {
          assert r[k] == tail[k - |head|] && QuoteEscapedAt(tail, k - |head|);
          if k > |head| {
            assert r[k - 1] == tail[k - 1 - |head|];
          }
        }
      }
    }
  }

  /** A string in quotes (json.cpp:186-197, 223-233). */
  function Quote(str: string): string {
    "\"" + Escape(str) + "\""
  }

  function Spaces(n: nat): (r: string)
    ensures |r| == n && forall k :: 0 <= k < n ==> r[k] == ' '
  {
    seq(n, _ => ' ')
  }

  /** Decimal digits of a natural number, without leading zeros. */
  function NatToString(n: nat): (r: string)
    ensures |r| > 0 && forall k :: 0 <= k < |r| ==> IsDigit(r[k])
    ensures |r| > 1 ==> r[0] != '0'
  {
    if n < 10 then ['0' + (n as char)]
    else
      var r := NatToString(n / 10) + ['0' + ((n % 10) as char)];
      assert r[0] == NatToString(n / 10)[0];
      r
  }

  /** What `out << int` writes. */
  function IntToString(i: int): (r: string)
    ensures |r| > 0 && (r[0] == '-' <==> i < 0)
  {
    if i < 0 then "-" + NatToString(-i) else NatToString(i)
  }

  /** The first character of every printed value other than a double. */
  predicate StartsValue(ch: char) {
    ch in "ntf\"[{-" || IsDigit(ch)
  }

  function PrintNode(n: Node, indent: nat, fmt: DoubleFormat): (r: string)
    ensures !n.Double? ==> |r| > 0 && StartsValue(r[0])
    decreases n
  {
    match n
    case Null => "null"
    case Bool(b) => if b then "true" else "false"
    case Int(i) => IntToString(i)
    case Double(d) => fmt(d)
    case Str(str) => Quote(str)
    case Array(items) =>
      if items == [] then "[]"
      else "[\n" + PrintItems(items, indent + IndentStep, fmt) + Spaces(indent) + "]"
    case Dict(members) =>
      if members == [] then "{}"
      else "{\n" + PrintMembers(members, indent + IndentStep, fmt) + Spaces(indent) + "}"
  }

  /** One line per element at the inner indent, a comma after all but the last. */
  function PrintItems(items: seq<Node>, indent: nat, fmt: DoubleFormat): string
    decreases items
  {
    if items == [] then ""
    else
      Spaces(indent) + PrintNode(items[0], indent, fmt) + (if |items| > 1 then "," else "") + "\n"
      + PrintItems(items[1..], indent, fmt)
  }

  /** One `"key": value` line per member, in key order. */
  function PrintMembers(members: seq<Member>, indent: nat, fmt: DoubleFormat): string
    decreases members
  {
    if members == [] then ""
    else
      Spaces(indent) + Quote(members[0].key) + ": " + PrintNode(members[0].value, indent, fmt)
      + (if |members| > 1 then "," else "") + "\n"
      + PrintMembers(members[1..], indent, fmt)
  }

  /** `Print`: the root at indent zero, then the newline of std::endl. */
  function Print(root: Node, fmt: DoubleFormat): (r: string)
    ensures |r| > 1 || root.Double?
    ensures r != [] && r[|r| - 1] == '\n'
    ensures !root.Double? ==> StartsValue(r[0])
  {
    PrintNode(root, 0, fmt) + "\n"
  }
}
