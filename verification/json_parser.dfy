/** The recursive-descent reader of json.cpp:27-172 and :328-330, over a
    character sequence and a position instead of an istream.  Every reader
    returns the value and the position just after what it consumed, or the
    ParsingError the source throws. */
module JsonParser {
  import opened Wrappers
  import opened Json

  datatype ParseError =
    | StringError                 // backslash at end of input, or no closing quote
    | UnrecognizedEscape(ch: char)
    | UnexpectedEndOfLine
    | InvalidNumber
    | InvalidFraction
    | InvalidExponent
    | ArrayError
    | KeyNotString
    | ColonExpected
    | DictError
    | UnknownToken(token: string)
    | UnexpectedChar(ch: char)
    | UnexpectedEof

  /* ---------------------------------------------------------------------
     Strings (json.cpp:27-56)
     --------------------------------------------------------------------- */

  /** The character an escape `\ch` stands for: only n, t, r, " and \. */
  function Unescape(ch: char): (r: Option<char>)
    ensures r.Some? <==> ch in "ntr\"\\"
  {
    match ch
    case 'n' => Some('\n')
    case 't' => Some('\t')
    case 'r' => Some('\r')
    case '"' => Some('"')
    case '\\' => Some('\\')
    case _ => None
  }

  /** The text the raw body s[i..j] of a string literal stands for: every
      escape becomes its character, every other character stands for
      itself.  An unknown escape, a backslash with nothing after it inside
      the range, an unescaped quote or a raw line break make the body
      undecodable. */
  function DecodeRange(s: string, i: nat, j: nat): Option<string>
    requires i <= j <= |s|
    decreases j - i
  {
    if i == j then Some("")
    else if s[i] == '\\' then
      if i + 1 == j then None
      else
        match (Unescape(s[i + 1]), DecodeRange(s, i + 2, j))
        case (Some(ch), Some(rest)) => Some([ch] + rest)
        case _ => None
    else if s[i] == '"' || s[i] == '\n' || s[i] == '\r' then None
    else
      match DecodeRange(s, i + 1, j)
      case Some(rest) => Some([s[i]] + rest)
      case None => None
  }

  /** Reads the rest of a string whose opening quote is already consumed:
      the decoded body up to the first unescaped quote. */
  function LoadString(s: string, pos: nat): (r: Result<(string, nat), ParseError>)
    requires pos <= |s|
    ensures r.Success? ==> pos < r.value.1 <= |s| && s[r.value.1 - 1] == '"'
    ensures r.Success? ==> DecodeRange(s, pos, r.value.1 - 1) == Some(r.value.0)
    decreases |s| - pos
  {
    if pos == |s| then Failure(StringError)
    else if s[pos] == '"' then Success(("", pos + 1))
    else if s[pos] == '\\' then
      if pos + 1 == |s| then Failure(StringError)
      else
        match Unescape(s[pos + 1])
        case None => Failure(UnrecognizedEscape(s[pos + 1]))
        case Some(ch) =>
          var rest :- LoadString(s, pos + 2);
          Success(([ch] + rest.0, rest.1))
    else if s[pos] == '\n' || s[pos] == '\r' then Failure(UnexpectedEndOfLine)
    else
      var rest :- LoadString(s, pos + 1);
      Success(([s[pos]] + rest.0, rest.1))
  }

  /** Without a closing quote ahead, reading a string fails. */
  lemma {:induction false} LoadStringNeedsQuote(s: string, pos: nat)
    requires pos <= |s| && forall k :: pos <= k < |s| ==> s[k] != '"'
    ensures LoadString(s, pos).Failure?
    decreases |s| - pos
  {
    if pos < |s| && s[pos] != '\n' && s[pos] != '\r' {
      if s[pos] == '\\' {
        if pos + 1 < |s| && Unescape(s[pos + 1]).Some? {
          LoadStringNeedsQuote(s, pos + 2);
        }
      } else {
        LoadStringNeedsQuote(s, pos + 1);
      }
    }
  }

  /** Conversely, a decodable body followed by a quote is read whole, as
      its decoding. */
  lemma {:induction false} LoadStringOfDecoded(s: string, pos: nat, j: nat)
    requires pos <= j < |s| && s[j] == '"' && DecodeRange(s, pos, j).Some?
    ensures LoadString(s, pos) == Success((DecodeRange(s, pos, j).value, j + 1))
    decreases j - pos
  {
    if pos < j {
      if s[pos] == '\\' {
        LoadStringOfDecoded(s, pos + 2, j);
      } else {
        LoadStringOfDecoded(s, pos + 1, j);
      }
    }
  }

  /** A backslash followed by anything but n, t, r, quote or backslash is
      the "unrecognized escape sequence" error, once the text before it
      decodes. */
  lemma {:induction false} LoadStringRejectsEscape(s: string, pos: nat, k: nat)
    requires pos <= k && k + 1 < |s| && s[k] == '\\' && Unescape(s[k + 1]).None?
    requires DecodeRange(s, pos, k).Some?
    ensures LoadString(s, pos) == Failure(UnrecognizedEscape(s[k + 1]))
    decreases k - pos
  {
    if pos < k {
      if s[pos] == '\\' {
        LoadStringRejectsEscape(s, pos + 2, k);
      } else {
        LoadStringRejectsEscape(s, pos + 1, k);
      }
    }
  }

  /** A raw line break met before the closing quote is an error. */
  lemma {:induction false} LoadStringRejectsLineBreak(s: string, pos: nat, k: nat)
    requires pos <= k < |s| && (s[k] == '\n' || s[k] == '\r')
    requires forall m :: pos <= m < k ==> s[m] != '"' && s[m] != '\\'
    ensures LoadString(s, pos) == Failure(UnexpectedEndOfLine)
    decreases k - pos
  {
    if pos < k {
      LoadStringRejectsLineBreak(s, pos + 1, k);
    }
  }

  /* ---------------------------------------------------------------------
     Numbers (json.cpp:59-104), against the number grammar of
     section 6 of RFC 8259
     --------------------------------------------------------------------- */

  predicate AllDigits(t: string) {
    forall k :: 0 <= k < |t| ==> IsDigit(t[k])
  }

  predicate MinusPart(t: string) {
    t == [] || t == "-"
  }

  /** A lone zero, or digits without a leading zero. */
  predicate IntPart(t: string) {
    t == "0" || (|t| >= 1 && '1' <= t[0] <= '9' && AllDigits(t))
  }

  predicate FracPart(t: string) {
    t == [] || (|t| >= 2 && t[0] == '.' && AllDigits(t[1..]))
  }

  predicate ExpPart(t: string) {
    || t == []
    || (|t| >= 2 && (t[0] == 'e' || t[0] == 'E') && AllDigits(t[1..]))
    || (|t| >= 3 && (t[0] == 'e' || t[0] == 'E') && (t[1] == '+' || t[1] == '-') && AllDigits(t[2..]))
  }

  /** The boundaries of a scanned number: the minus sign is s[start..intStart],
      the integer part s[intStart..fracStart], the fraction s[fracStart..expStart]
      and the exponent s[expStart..end]. */
  datatype NumberSpan = NumberSpan(start: nat, intStart: nat, fracStart: nat, expStart: nat, end: nat)

  predicate SpanIn(s: string, sp: NumberSpan) {
    sp.start <= sp.intStart <= sp.fracStart <= sp.expStart <= sp.end <= |s|
  }

  /** The span splits s[start..end] into the four parts of the grammar. */
  predicate GrammarSpan(s: string, sp: NumberSpan) {
    && SpanIn(s, sp)
    && MinusPart(s[sp.start..sp.intStart])
    && IntPart(s[sp.intStart..sp.fracStart])
    && FracPart(s[sp.fracStart..sp.expStart])
    && ExpPart(s[sp.expStart..sp.end])
  }

  /** The end of the run of digits that starts at pos. */
  function DigitsEnd(s: string, pos: nat): (r: nat)
    requires pos <= |s|
    ensures pos <= r <= |s| && AllDigits(s[pos..r]) && (r == |s| || !IsDigit(s[r]))
    decreases |s| - pos
  {
    if pos < |s| && IsDigit(s[pos]) then DigitsEnd(s, pos + 1) else pos
  }

  predicate DigitAt(s: string, p: nat) {
    p < |s| && IsDigit(s[p])
  }

  /** The integer part starting at a digit: a lone leading zero stops it. */
  function ScanInt(s: string, pos: nat): (r: nat)
    requires DigitAt(s, pos)
    ensures pos < r <= |s| && IntPart(s[pos..r])
  {
    if s[pos] == '0' then
      assert s[pos..pos + 1] == "0";
      pos + 1
    else
      var r := DigitsEnd(s, pos + 1);
      assert s[pos..r] == [s[pos]] + s[pos + 1..r];
      r
  }

  /** An optional `.` followed by at least one digit. */
  function ScanFrac(s: string, pos: nat): (r: Result<nat, ParseError>)
    requires pos <= |s|
    ensures r.Success? ==> pos <= r.value <= |s| && FracPart(s[pos..r.value])
    ensures r.Success? ==> (r.value == pos <==> !(pos < |s| && s[pos] == '.'))
  {
    if pos < |s| && s[pos] == '.' then
      if !DigitAt(s, pos + 1) then Failure(InvalidFraction)
      else
        var r := DigitsEnd(s, pos + 1);
        assert s[pos..r][1..] == s[pos + 1..r];
        Success(r)
    else Success(pos)
  }

  /** An optional `e` or `E`, an optional sign, and at least one digit. */
  function ScanExp(s: string, pos: nat): (r: Result<nat, ParseError>)
    requires pos <= |s|
    ensures r.Success? ==> pos <= r.value <= |s| && ExpPart(s[pos..r.value])
    ensures r.Success? ==> (r.value == pos <==> !(pos < |s| && (s[pos] == 'e' || s[pos] == 'E')))
  {
    if pos < |s| && (s[pos] == 'e' || s[pos] == 'E') then
      var digits := if pos + 1 < |s| && (s[pos + 1] == '+' || s[pos + 1] == '-') then pos + 2 else pos + 1;
      if !DigitAt(s, digits) then Failure(InvalidExponent)
      else
        var r := DigitsEnd(s, digits);
        assert s[pos..r][digits - pos..] == s[digits..r];
        assert s[pos..r][1] == s[pos + 1];
        Success(r)
    else Success(pos)
  }

  /** The lexer part of LoadNumber: how far the number reaches. */
  function ScanNumber(s: string, pos: nat): (r: Result<NumberSpan, ParseError>)
    requires pos <= |s|
    ensures r.Success? ==> r.value.start == pos && GrammarSpan(s, r.value)
  {
    var intStart := if pos < |s| && s[pos] == '-' then pos + 1 else pos;
    assert MinusPart(s[pos..intStart]) by {
      if intStart > pos { assert s[pos..intStart] == [s[pos]]; }
    }
    if !DigitAt(s, intStart) then Failure(InvalidNumber)
    else
      var fracStart := ScanInt(s, intStart);
      var expStart :- ScanFrac(s, fracStart);
      var end :- ScanExp(s, expStart);
      Success(NumberSpan(pos, intStart, fracStart, expStart, end))
  }

  /** Characters that may continue a number after a complete part. */
  predicate Continues(s: string, p: nat) {
    p < |s| && (IsDigit(s[p]) || s[p] in ".eE")
  }

  /** Maximal munch: text matching the grammar, followed by a character
      that cannot continue a number, is scanned exactly. */
  lemma {:induction false} ScanNumberComplete(s: string, sp: NumberSpan)
    requires GrammarSpan(s, sp) && !Continues(s, sp.end)
    ensures ScanNumber(s, sp.start) == Success(sp)
  {
    NumberPartsFollow(s, sp);
    ScanIntComplete(s, sp.intStart, sp.fracStart);
    ScanFracComplete(s, sp.fracStart, sp.expStart);
    ScanExpComplete(s, sp.expStart, sp.end);
  }

  /** Where each part of a complete number ends, the next cannot go on. */
  lemma {:induction false} NumberPartsFollow(s: string, sp: NumberSpan)
    requires GrammarSpan(s, sp) && !Continues(s, sp.end)
    ensures sp.intStart == if sp.start < |s| && s[sp.start] == '-' then sp.start + 1 else sp.start
    ensures !DigitAt(s, sp.fracStart) && !DigitAt(s, sp.expStart) && !DigitAt(s, sp.end)
    ensures sp.fracStart == sp.expStart ==> !(sp.fracStart < |s| && s[sp.fracStart] == '.')
    ensures sp.expStart == sp.end ==> !(sp.expStart < |s| && (s[sp.expStart] == 'e' || s[sp.expStart] == 'E'))
  {
    var intPart := s[sp.intStart..sp.fracStart];
    assert s[sp.intStart] == intPart[0];
    if sp.intStart > sp.start {
      assert s[sp.start..sp.intStart][0] == s[sp.start];
    }
    if sp.expStart > sp.fracStart {
      assert s[sp.fracStart..sp.expStart][0] == s[sp.fracStart];
    }
    if sp.end > sp.expStart {
      assert s[sp.expStart..sp.end][0] == s[sp.expStart];
    }
  }

  lemma {:induction false} ScanIntComplete(s: string, a: nat, b: nat)
    requires a < b <= |s| && IntPart(s[a..b]) && !DigitAt(s, b)
    ensures DigitAt(s, a) && ScanInt(s, a) == b
  {
    assert s[a..b][0] == s[a];
    if s[a] != '0' {
      assert s[a + 1..b] == s[a..b][1..];
      DigitsEndOfRun(s, a + 1, b);
    }
  }

  lemma {:induction false} ScanFracComplete(s: string, a: nat, b: nat)
    requires a <= b <= |s| && FracPart(s[a..b]) && !DigitAt(s, b)
    requires a == b ==> !(a < |s| && s[a] == '.')
    ensures ScanFrac(s, a) == Success(b)
  {
    if a < b {
      assert s[a..b][0] == s[a] && s[a..b][1] == s[a + 1];
      assert s[a + 1..b] == s[a..b][1..];
      DigitsEndOfRun(s, a + 1, b);
    }
  }

  lemma {:induction false} ScanExpComplete(s: string, a: nat, b: nat)
    requires a <= b <= |s| && ExpPart(s[a..b]) && !DigitAt(s, b)
    requires a == b ==> !(a < |s| && (s[a] == 'e' || s[a] == 'E'))
    ensures ScanExp(s, a) == Success(b)
  {
    if a < b {
      var t := s[a..b];
      assert t[0] == s[a] && t[1] == s[a + 1];
      if IsDigit(t[1]) {
        assert s[a + 1..b] == t[1..];
        DigitsEndOfRun(s, a + 1, b);
      } else {
        assert t[2] == s[a + 2];
        assert s[a + 2..b] == t[2..];
        DigitsEndOfRun(s, a + 2, b);
      }
    }
  }

  function DigitValue(ch: char): nat
    requires IsDigit(ch)
  {
    (ch as int) - ('0' as int)
  }

  /** The decimal value of a run of digits. */
  function DigitsValue(t: string): nat
    requires AllDigits(t)
  {
    if t == [] then 0 else 10 * DigitsValue(t[..|t| - 1]) + DigitValue(t[|t| - 1])
  }

  function Pow10(n: nat): (r: nat)
    ensures r > 0
  {
    if n == 0 then 1 else 10 * Pow10(n - 1)
  }

  /** m * 10^e as an exact rational. */
  function Scale(m: int, e: int): real {
    if e >= 0 then (m * Pow10(e)) as real else m as real / Pow10(-e) as real
  }

  /** The exact value of a scanned number (the model's stand-in for stod). */
  function SpanValue(s: string, sp: NumberSpan): real
    requires GrammarSpan(s, sp)
  {
    var sign := if sp.intStart > sp.start then -1 else 1;
    var intDigits := s[sp.intStart..sp.fracStart];
    var fracDigits := if sp.expStart > sp.fracStart then s[sp.fracStart + 1..sp.expStart] else [];
    var expText := if sp.end > sp.expStart then s[sp.expStart + 1..sp.end] else [];
    var expSign := if expText != [] && expText[0] == '-' then -1 else 1;
    var expDigits := if expText != [] && (expText[0] == '+' || expText[0] == '-') then expText[1..] else expText;
    assert AllDigits(intDigits + fracDigits);
    Scale(sign * DigitsValue(intDigits + fracDigits), expSign * DigitsValue(expDigits) - |fracDigits|)
  }

  /** The integer a fraction- and exponent-free number denotes. */
  function SpanInt(s: string, sp: NumberSpan): int
    requires GrammarSpan(s, sp)
  {
    var magnitude: int := DigitsValue(s[sp.intStart..sp.fracStart]);
    if sp.intStart > sp.start then -magnitude else magnitude
  }

  /** A number is an Int exactly when it has neither fraction nor exponent
      and its value fits an int; otherwise it is a Double. */
  function LoadNumber(s: string, pos: nat): (r: Result<(Node, nat), ParseError>)
    requires pos <= |s|
    ensures r.Success? <==> ScanNumber(s, pos).Success?
    ensures r.Success? ==> r.value.1 == ScanNumber(s, pos).value.end > pos
    ensures r.Success? ==>
      var sp := ScanNumber(s, pos).value;
      (r.value.0.Int? <==> sp.fracStart == sp.end && IsInt32(SpanInt(s, sp)))
      && (r.value.0.Int? ==> r.value.0.i == SpanInt(s, sp))
      && (!r.value.0.Int? ==> r.value.0 == Double(SpanValue(s, sp)))
  {
    var sp :- ScanNumber(s, pos);
    if sp.fracStart == sp.end && IsInt32(SpanInt(s, sp)) then Success((Int(SpanInt(s, sp)), sp.end))
    else Success((Double(SpanValue(s, sp)), sp.end))
  }

  lemma {:induction false} DigitsEndOfRun(s: string, a: nat, b: nat)
    requires a <= b <= |s| && AllDigits(s[a..b]) && (b == |s| || !IsDigit(s[b]))
    ensures DigitsEnd(s, a) == b
    decreases b - a
  {
    if a < b {
      assert s[a..b][0] == s[a];
      assert s[a + 1..b] == s[a..b][1..];
      DigitsEndOfRun(s, a + 1, b);
    }
  }

  /* ---------------------------------------------------------------------
     Nodes, arrays and dictionaries (json.cpp:108-172)
     --------------------------------------------------------------------- */

  predicate SpaceAt(s: string, k: nat)
    requires k < |s|
  {
    IsSpace(s[k])
  }

  /** The `input >> c` skip: the first position at or after pos that is
      not white space. */
  function SkipSpaces(s: string, pos: nat): (r: nat)
    requires pos <= |s|
    ensures pos <= r <= |s| && (r == |s| || !IsSpace(s[r]))
    ensures forall k :: pos <= k < r ==> SpaceAt(s, k)
    decreases |s| - pos
  {
    if pos < |s| && IsSpace(s[pos]) then SkipSpaces(s, pos + 1) else pos
  }

  predicate AlphaAt(s: string, k: nat)
    requires k < |s|
  {
    IsAlpha(s[k])
  }

  function AlphaEnd(s: string, pos: nat): (r: nat)
    requires pos <= |s|
    ensures pos <= r <= |s| && (r == |s| || !IsAlpha(s[r]))
    ensures forall k :: pos <= k < r ==> AlphaAt(s, k)
    decreases |s| - pos
  {
    if pos < |s| && IsAlpha(s[pos]) then AlphaEnd(s, pos + 1) else pos
  }

  /** A bare word: only true, false and null are known. */
  function LoadLiteral(token: string): (r: Result<Node, ParseError>)
    ensures r.Success? <==> token in {"true", "false", "null"}
    ensures r.Success? ==> r.value in {Bool(true), Bool(false), Null}
    ensures token == "true" ==> r == Success(Bool(true))
    ensures token == "false" ==> r == Success(Bool(false))
    ensures token == "null" ==> r == Success(Null)
    ensures r.Failure? ==> r.error == UnknownToken(token)
  {
    if token == "true" then Success(Bool(true))
    else if token == "false" then Success(Bool(false))
    else if token == "null" then Success(Null)
    else Failure(UnknownToken(token))
  }

  /** Everything in s[i..j] is white space. */
  predicate Spaces(s: string, i: nat, j: nat)
    requires i <= j <= |s|
  {
    forall k :: i <= k < j ==> SpaceAt(s, k)
  }

  /** White space up to k and something else (or the end) at k: skipping
      from i stops at k. */
  lemma {:induction false} SkipSpacesTo(s: string, i: nat, k: nat)
    requires i <= k <= |s| && Spaces(s, i, k) && (k == |s| || !IsSpace(s[k]))
    ensures SkipSpaces(s, i) == k
    decreases k - i
  {
    if i < k {
      assert SpaceAt(s, i);
      SkipSpacesTo(s, i + 1, k);
    }
  }

  /** Skipping over nothing but white space reaches the end. */
  lemma {:induction false} SkipSpacesAll(s: string, i: nat)
    requires i <= |s|
    ensures Spaces(s, i, |s|) ==> SkipSpaces(s, i) == |s|
  {
    if Spaces(s, i, |s|) {
      SkipSpacesTo(s, i, |s|);
    }
  }

  /** The kind of node a first character announces: `[` an array, `{` a
      dictionary, a quote a string, a digit or minus a number, a letter a
      boolean or null. */
  predicate Announces(ch: char, n: Node) {
    match n
    case Array(_) => ch == '['
    case Dict(_) => ch == '{'
    case Str(_) => ch == '"'
    case Int(_) => IsDigit(ch) || ch == '-'
    case Double(_) => IsDigit(ch) || ch == '-'
    case Bool(_) => IsAlpha(ch)
    case Null => IsAlpha(ch)
  }

  /** The character that closes a node of this kind, for the kinds that
      have one. */
  predicate ClosedBy(n: Node, ch: char) {
    match n
    case Array(_) => ch == ']'
    case Dict(_) => ch == '}'
    case Str(_) => ch == '"'
    case _ => true
  }

  /** `LoadNode`: skip white space, then read the value its first
      character announces; only white space up to the end is the
      "unexpected EOF" error. */
  function LoadNode(s: string, pos: nat): (r: Result<(Node, nat), ParseError>)
    requires pos <= |s|
    ensures r.Success? ==> pos < r.value.1 <= |s|
    ensures r.Success? ==> SkipSpaces(s, pos) < |s| && Announces(s[SkipSpaces(s, pos)], r.value.0)
    ensures r.Success? ==> ClosedBy(r.value.0, s[r.value.1 - 1])
    ensures r.Success? && r.value.0.Dict? ==> SortedKeys(r.value.0.members)
    ensures Spaces(s, pos, |s|) ==> r == Failure(UnexpectedEof)
    decreases |s| - pos, 1
  {
    SkipSpacesAll(s, pos);
    LoadNodeAt(s, SkipSpaces(s, pos))
  }

  /** A character that starts no value is the "unexpected character"
      error. */
  function LoadNodeAt(s: string, p: nat): (r: Result<(Node, nat), ParseError>)
    requires p <= |s|
    ensures r.Success? ==> p < r.value.1 <= |s| && Announces(s[p], r.value.0)
    ensures r.Success? ==> ClosedBy(r.value.0, s[r.value.1 - 1])
    ensures r.Success? && r.value.0.Dict? ==> SortedKeys(r.value.0.members)
    ensures p == |s| ==> r == Failure(UnexpectedEof)
    ensures p < |s| && s[p] !in "[{\"-" && !IsDigit(s[p]) && !IsAlpha(s[p]) ==> r == Failure(UnexpectedChar(s[p]))
    decreases |s| - p, 0
  {
    if p == |s| then Failure(UnexpectedEof)
    else if s[p] == '[' then
      var items :- LoadArray(s, p + 1, []);
      Success((Array(items.0), items.1))
    else if s[p] == '{' then
      var members :- LoadDict(s, p + 1, []);
      Success((Dict(members.0), members.1))
    else if s[p] == '"' then
      var str :- LoadString(s, p + 1);
      Success((Str(str.0), str.1))
    else if IsDigit(s[p]) || s[p] == '-' then
      LoadNumber(s, p)
    else if IsAlpha(s[p]) then
      var end := AlphaEnd(s, p + 1);
      var literal :- LoadLiteral(s[p..end]);
      Success((literal, end))
    else
      Failure(UnexpectedChar(s[p]))
  }

  /** The elements after `[`, up to the closing `]`; a comma before an
      element is optional. */
  function LoadArray(s: string, pos: nat, acc: seq<Node>): (r: Result<(seq<Node>, nat), ParseError>)
    requires pos <= |s|
    ensures r.Success? ==> pos < r.value.1 <= |s| && s[r.value.1 - 1] == ']'
    ensures r.Success? ==> |acc| <= |r.value.0| && r.value.0[..|acc|] == acc
    decreases |s| - pos, 4
  {
    LoadArrayAt(s, SkipSpaces(s, pos), acc)
  }

  function LoadArrayAt(s: string, p: nat, acc: seq<Node>): (r: Result<(seq<Node>, nat), ParseError>)
    requires p <= |s|
    ensures r.Success? ==> p < r.value.1 <= |s| && s[r.value.1 - 1] == ']'
    ensures r.Success? ==> |acc| <= |r.value.0| && r.value.0[..|acc|] == acc
    ensures p == |s| ==> r == Failure(ArrayError)
    decreases |s| - p, 3
  {
    if p == |s| then Failure(ArrayError)
    else if s[p] == ']' then Success((acc, p + 1))
    else LoadElement(s, if s[p] == ',' then p + 1 else p, acc)
  }

  /** One element, then the elements after it. */
  function LoadElement(s: string, pos: nat, acc: seq<Node>): (r: Result<(seq<Node>, nat), ParseError>)
    requires pos <= |s|
    ensures r.Success? ==> pos < r.value.1 <= |s| && s[r.value.1 - 1] == ']'
    ensures r.Success? ==> |acc| <= |r.value.0| && r.value.0[..|acc|] == acc
    decreases |s| - pos, 2
  {
    var item :- LoadNode(s, pos);
    var rest := LoadArray(s, item.1, acc + [item.0]);
    if rest.Success? then
      assert rest.value.0[..|acc|] == (acc + [item.0])[..|acc|] == acc by {
        assert rest.value.0[..|acc|] == rest.value.0[..|acc + [item.0]|][..|acc|];
      }
      rest
    else rest
  }

  /** After white space, `]` ends the array with the elements read so far. */
  lemma {:induction false} LoadArrayClose(s: string, pos: nat, k: nat, acc: seq<Node>)
    requires pos <= k < |s| && Spaces(s, pos, k) && s[k] == ']'
    ensures LoadArray(s, pos, acc) == Success((acc, k + 1))
  {
    SkipSpacesTo(s, pos, k);
  }

  /** White space up to the end is the "array parsing error". */
  lemma {:induction false} LoadArrayEof(s: string, pos: nat, acc: seq<Node>)
    requires pos <= |s| && Spaces(s, pos, |s|)
    ensures LoadArray(s, pos, acc) == Failure(ArrayError)
  {
    SkipSpacesTo(s, pos, |s|);
  }

  /** After white space, anything but `]` starts an element, after one
      optional comma: the node read there is appended and reading goes on
      after it, and its failure is the array's failure. */
  lemma {:induction false} LoadArrayElement(s: string, pos: nat, k: nat, acc: seq<Node>)
    requires pos <= k < |s| && Spaces(s, pos, k) && !IsSpace(s[k]) && s[k] != ']'
    ensures var item := LoadNode(s, if s[k] == ',' then k + 1 else k);
      && (item.Success? ==> LoadArray(s, pos, acc) == LoadArray(s, item.value.1, acc + [item.value.0]))
      && (item.Failure? ==> LoadArray(s, pos, acc) == Failure(item.error))
  {
    SkipSpacesTo(s, pos, k);
    var q := if s[k] == ',' then k + 1 else k;
    assert LoadArray(s, pos, acc) == LoadElement(s, q, acc);
  }

  /** Every key of `before` is still there with the same value. */
  predicate KeepsEntries(before: seq<Member>, after: seq<Member>) {
    && Keys(before) <= Keys(after)
    && forall key :: key in Keys(before) ==> Get(after, key) == Get(before, key)
  }

  /** The members after `{`, up to the closing `}`: a quoted key, a colon
      and a value, with one optional comma before each key; a key read
      earlier keeps its first value. */
  function LoadDict(s: string, pos: nat, acc: seq<Member>): (r: Result<(seq<Member>, nat), ParseError>)
    requires pos <= |s| && SortedKeys(acc)
    ensures r.Success? ==> pos < r.value.1 <= |s| && s[r.value.1 - 1] == '}' && SortedKeys(r.value.0)
    decreases |s| - pos, 2
  {
    LoadDictAt(s, SkipSpaces(s, pos), acc)
  }

  function LoadDictAt(s: string, p: nat, acc: seq<Member>): (r: Result<(seq<Member>, nat), ParseError>)
    requires p <= |s| && SortedKeys(acc)
    ensures r.Success? ==> p < r.value.1 <= |s| && s[r.value.1 - 1] == '}' && SortedKeys(r.value.0)
    ensures p == |s| ==> r == Failure(DictError)
    decreases |s| - p, 1
  {
    if p == |s| then Failure(DictError)
    else if s[p] == '}' then Success((acc, p + 1))
    else
      var p2 := KeyStart(s, p);
      if p2 == |s| || s[p2] != '"' then Failure(KeyNotString)
      else LoadMember(s, p2 + 1, acc)
  }

  /** Where the key of the member starting at p should open: past one
      leading comma and the white space after it. */
  function KeyStart(s: string, p: nat): (q: nat)
    requires p < |s|
    ensures p <= q <= |s|
  {
    if s[p] == ',' then SkipSpaces(s, p + 1) else p
  }

  /** One member from just after its key's opening quote, then the members
      after it. */
  function LoadMember(s: string, pos: nat, acc: seq<Member>): (r: Result<(seq<Member>, nat), ParseError>)
    requires pos <= |s| && SortedKeys(acc)
    ensures r.Success? ==> pos < r.value.1 <= |s| && s[r.value.1 - 1] == '}' && SortedKeys(r.value.0)
    decreases |s| - pos, 1
  {
    var key :- LoadString(s, pos);
    var p3 := SkipSpaces(s, key.1);
    if p3 == |s| || s[p3] != ':' then Failure(ColonExpected)
    else
      var value :- LoadNode(s, p3 + 1);
      LoadDict(s, value.1, Emplace(acc, key.0, value.0))
  }

  /** Where a member's key should open, when the first character after the
      white space is at k: just there, or past one comma and white space. */
  predicate KeyOpensAt(s: string, k: nat, q: nat)
    requires k < |s|
  {
    if s[k] == ',' then k < q <= |s| && Spaces(s, k + 1, q) && (q == |s| || !IsSpace(s[q]))
    else q == k
  }

  /** A dictionary read on from `acc` keeps every entry of `acc`: a key
      read again does not replace its first value. */
  lemma {:induction false} LoadDictKeepsEntries(s: string, pos: nat, acc: seq<Member>)
    requires pos <= |s| && SortedKeys(acc)
    ensures LoadDict(s, pos, acc).Success? ==> KeepsEntries(acc, LoadDict(s, pos, acc).value.0)
    decreases |s| - pos
  {
    var r := LoadDict(s, pos, acc);
    if r.Success? {
      var k := SkipSpaces(s, pos);
      assert r == LoadDictAt(s, k, acc);
      if s[k] != '}' {
        LoadDictAtKey(s, k, KeyStart(s, k), acc);
        var key, value, e := LoadMemberSuccess(s, KeyStart(s, k) + 1, acc);
        var next := Emplace(acc, key, value);
        LoadDictKeepsEntries(s, e, next);
        KeepsEntriesTransitive(acc, next, r.value.0);
      }
    }
  }

  /** A member read successfully is a key and a value emplaced, with the
      members after it read on from e. */
  lemma {:induction false} LoadMemberSuccess(s: string, pos: nat, acc: seq<Member>) returns (key: string, value: Node, e: nat)
    requires pos <= |s| && SortedKeys(acc) && LoadMember(s, pos, acc).Success?
    ensures pos < e <= |s| && LoadMember(s, pos, acc) == LoadDict(s, e, Emplace(acc, key, value))
  {
    var k := LoadString(s, pos).value;
    var item := LoadNode(s, SkipSpaces(s, k.1) + 1).value;
    key, value, e := k.0, item.0, item.1;
  }

  lemma {:induction false} KeepsEntriesTransitive(a: seq<Member>, b: seq<Member>, c: seq<Member>)
    requires SortedKeys(a)
    requires KeepsEntries(a, b) && KeepsEntries(b, c)
    ensures KeepsEntries(a, c)
  {
  }

  /** After white space, `}` ends the dictionary with the members read so
      far. */
  lemma {:induction false} LoadDictClose(s: string, pos: nat, k: nat, acc: seq<Member>)
    requires SortedKeys(acc) && pos <= k < |s| && Spaces(s, pos, k) && s[k] == '}'
    ensures LoadDict(s, pos, acc) == Success((acc, k + 1))
  {
    SkipSpacesTo(s, pos, k);
  }

  /** White space up to the end is the "dict parsing error". */
  lemma {:induction false} LoadDictEof(s: string, pos: nat, acc: seq<Member>)
    requires SortedKeys(acc) && pos <= |s| && Spaces(s, pos, |s|)
    ensures LoadDict(s, pos, acc) == Failure(DictError)
  {
    SkipSpacesTo(s, pos, |s|);
  }

  /** A key that does not open with a quote, even after a comma, is the
      "key must be a string" error. */
  lemma {:induction false} LoadDictKeyNotString(s: string, pos: nat, k: nat, q: nat, acc: seq<Member>)
    requires SortedKeys(acc) && pos <= k < |s| && Spaces(s, pos, k) && !IsSpace(s[k]) && s[k] != '}'
    requires KeyOpensAt(s, k, q) && (q == |s| || s[q] != '"')
    ensures LoadDict(s, pos, acc) == Failure(KeyNotString)
  {
    SkipSpacesTo(s, pos, k);
    if s[k] == ',' {
      SkipSpacesTo(s, k + 1, q);
    }
  }

  /** A quote where the key should open: reading goes on with the key. */
  lemma {:induction false} LoadDictKey(s: string, pos: nat, k: nat, q: nat, acc: seq<Member>)
    requires SortedKeys(acc) && pos <= k < |s| && Spaces(s, pos, k) && !IsSpace(s[k]) && s[k] != '}'
    requires KeyOpensAt(s, k, q) && q < |s| && s[q] == '"'
    ensures LoadDict(s, pos, acc) == LoadMember(s, q + 1, acc)
  {
    SkipSpacesTo(s, pos, k);
    if s[k] == ',' {
      SkipSpacesTo(s, k + 1, q);
    }
    LoadDictAtKey(s, k, q, acc);
  }

  lemma {:induction false} LoadDictAtKey(s: string, p: nat, q: nat, acc: seq<Member>)
    requires SortedKeys(acc) && p < |s| && s[p] != '}'
    requires q == KeyStart(s, p) && q < |s| && s[q] == '"'
    ensures LoadDictAt(s, p, acc) == LoadMember(s, q + 1, acc)
  {
    assert p != |s| && s[p] != '}';
    assert !(q == |s| || s[q] != '"');
  }

  /** A key not followed, after white space, by a colon is the "colon
      expected" error. */
  lemma {:induction false} LoadDictColonExpected(s: string, pos: nat, k: nat, q: nat, acc: seq<Member>, c: nat)
    requires SortedKeys(acc) && pos <= k < |s| && Spaces(s, pos, k) && !IsSpace(s[k]) && s[k] != '}'
    requires KeyOpensAt(s, k, q) && q < |s| && s[q] == '"' && LoadString(s, q + 1).Success?
    requires LoadString(s, q + 1).value.1 <= c <= |s| && Spaces(s, LoadString(s, q + 1).value.1, c)
    requires c == |s| || (!IsSpace(s[c]) && s[c] != ':')
    ensures LoadDict(s, pos, acc) == Failure(ColonExpected)
  {
    LoadDictKey(s, pos, k, q, acc);
    SkipSpacesTo(s, LoadString(s, q + 1).value.1, c);
  }

  /** A key and a colon: the value read after the colon is emplaced under
      the key and reading goes on after it, and its failure is the
      dictionary's failure. */
  lemma {:induction false} LoadDictMember(s: string, pos: nat, k: nat, q: nat, acc: seq<Member>, c: nat)
    requires SortedKeys(acc) && pos <= k < |s| && Spaces(s, pos, k) && !IsSpace(s[k]) && s[k] != '}'
    requires KeyOpensAt(s, k, q) && q < |s| && s[q] == '"' && LoadString(s, q + 1).Success?
    requires LoadString(s, q + 1).value.1 <= c < |s| && Spaces(s, LoadString(s, q + 1).value.1, c)
    requires s[c] == ':'
    ensures var key, item := LoadString(s, q + 1).value.0, LoadNode(s, c + 1);
      && (item.Success? ==> LoadDict(s, pos, acc) == LoadDict(s, item.value.1, Emplace(acc, key, item.value.0)))
      && (item.Failure? ==> LoadDict(s, pos, acc) == Failure(item.error))
  {
    LoadDictKey(s, pos, k, q, acc);
    LoadMemberColon(s, q + 1, acc, c);
  }

  /** The member step once the key is read and the colon found. */
  lemma {:induction false} LoadMemberColon(s: string, pos: nat, acc: seq<Member>, c: nat)
    requires SortedKeys(acc) && pos <= |s| && LoadString(s, pos).Success?
    requires LoadString(s, pos).value.1 <= c < |s| && Spaces(s, LoadString(s, pos).value.1, c) && s[c] == ':'
    ensures var key, item := LoadString(s, pos).value.0, LoadNode(s, c + 1);
      && (item.Success? ==> LoadMember(s, pos, acc) == LoadDict(s, item.value.1, Emplace(acc, key, item.value.0)))
      && (item.Failure? ==> LoadMember(s, pos, acc) == Failure(item.error))
  {
    var key := LoadString(s, pos).value;
    SkipSpacesTo(s, key.1, c);
    var item := LoadNode(s, c + 1);
    if item.Success? {
      assert LoadMember(s, pos, acc) == LoadDict(s, item.value.1, Emplace(acc, key.0, item.value.0));
    }
  }

  /** `Load`: the document root is the first node of the text; whatever
      follows it is not read. */
  function Load(s: string): (r: Result<Node, ParseError>)
    ensures r.Success? <==> LoadNode(s, 0).Success?
    ensures r.Success? ==> r.value == LoadNode(s, 0).value.0
  {
    var root :- LoadNode(s, 0);
    Success(root.0)
  }

  /** A document opening with `[` is the array read after it. */
  lemma {:induction false} LoadArrayRoot(s: string)
    requires |s| > 0 && s[0] == '['
    ensures var items := LoadArray(s, 1, []);
      && (items.Success? ==> Load(s) == Success(Array(items.value.0)))
      && (items.Failure? ==> Load(s) == Failure(items.error))
  {
    SkipSpacesTo(s, 0, 0);
    assert LoadNode(s, 0) == LoadNodeAt(s, 0);
  }

  /** A document opening with `{` is the dictionary read after it. */
  lemma {:induction false} LoadDictRoot(s: string)
    requires |s| > 0 && s[0] == '{'
    ensures var members := LoadDict(s, 1, []);
      && (members.Success? ==> Load(s) == Success(Dict(members.value.0)))
      && (members.Failure? ==> Load(s) == Failure(members.error))
  {
    SkipSpacesTo(s, 0, 0);
    assert LoadNode(s, 0) == LoadNodeAt(s, 0);
  }

  /** A lone digit followed by no other number character reads as its int. */
  lemma {:induction false} SingleDigit(s: string, p: nat)
    requires p < |s| && IsDigit(s[p]) && !Continues(s, p + 1)
    ensures LoadNode(s, p) == Success((Int(DigitValue(s[p])), p + 1))
  {
    SingleDigitNumber(s, p);
    SkipSpacesTo(s, p, p);
    assert s[p] != '[' && s[p] != '{' && s[p] != '"';
    assert LoadNodeAt(s, p) == LoadNumber(s, p);
    assert LoadNode(s, p) == LoadNodeAt(s, p);
  }

  lemma {:induction false} SingleDigitNumber(s: string, p: nat)
    requires p < |s| && IsDigit(s[p]) && !Continues(s, p + 1)
    ensures LoadNumber(s, p) == Success((Int(DigitValue(s[p])), p + 1))
  {
    var sp := NumberSpan(p, p, p + 1, p + 1, p + 1);
    assert s[p..p + 1] == [s[p]];
    assert s[p] == '0' || '1' <= s[p] <= '9';
    assert GrammarSpan(s, sp);
    ScanNumberComplete(s, sp);
    assert DigitsValue([s[p]]) == DigitValue(s[p]) by {
      assert [s[p]][..0] == [];
    }
  }

  /** A plain character decodes to itself. */
  lemma {:induction false} DecodeOne(s: string, i: nat)
    requires i < |s| && s[i] !in "\\\"\n\r"
    ensures DecodeRange(s, i, i + 1) == Some([s[i]])
  {
    assert DecodeRange(s, i + 1, i + 1) == Some("");
    assert [s[i]] + "" == [s[i]];
  }

  /** Samples of the container rules, each spelled out character by
      character: the comma between array elements is optional, a key must
      be quoted and followed by a colon, a comma must be followed by a key,
      and a repeated key keeps its first value. */
  lemma ArrayWithoutComma()
    ensures Load("[1 2]") == Success(Array([Int(1), Int(2)]))
  {
    var s := "[1 2]";
    assert s[0] == '[' && s[1] == '1' && s[2] == ' ' && s[3] == '2' && s[4] == ']';
    TwoDigitsArray(s);
  }

  /** `[1 2]`. */
  lemma {:induction false} TwoDigitsArray(s: string)
    requires |s| == 5 && s[0] == '[' && s[1] == '1' && s[2] == ' ' && s[3] == '2' && s[4] == ']'
    ensures Load(s) == Success(Array([Int(1), Int(2)]))
  {
    SingleDigit(s, 1);
    assert DigitValue(s[1]) == 1 && DigitValue(s[3]) == 2;
    LoadArrayElement(s, 1, 1, []);
    assert [] + [Int(1)] == [Int(1)];
    assert LoadArray(s, 1, []) == LoadArray(s, 2, [Int(1)]);
    SingleDigit(s, 3);
    assert SpaceAt(s, 2);
    LoadArrayElement(s, 2, 3, [Int(1)]);
    assert [Int(1)] + [Int(2)] == [Int(1), Int(2)];
    assert LoadArray(s, 2, [Int(1)]) == LoadArray(s, 4, [Int(1), Int(2)]);
    LoadArrayClose(s, 4, 4, [Int(1), Int(2)]);
    LoadArrayRoot(s);
  }

  lemma BareKeyRejected()
    ensures Load("{a:1}") == Failure(KeyNotString)
  {
    var s := "{a:1}";
    assert s[0] == '{' && s[1] == 'a';
    BareKey(s);
  }

  /** `{a` and anything after it. */
  lemma {:induction false} BareKey(s: string)
    requires |s| > 1 && s[0] == '{' && s[1] == 'a'
    ensures Load(s) == Failure(KeyNotString)
  {
    LoadDictKeyNotString(s, 1, 1, 1, []);
    LoadDictRoot(s);
  }

  lemma MissingColonRejected()
    ensures Load("{\"a\" 1}") == Failure(ColonExpected)
  {
    var s := "{\"a\" 1}";
    assert s[0] == '{' && s[1] == '"' && s[2] == 'a' && s[3] == '"' && s[4] == ' ' && s[5] == '1';
    MissingColon(s);
  }

  /** `{"a" 1` and anything after it. */
  lemma {:induction false} MissingColon(s: string)
    requires |s| > 5 && s[0] == '{' && s[1] == '"' && s[2] == 'a' && s[3] == '"' && s[4] == ' ' && s[5] == '1'
    ensures Load(s) == Failure(ColonExpected)
  {
    DecodeOne(s, 2);
    LoadStringOfDecoded(s, 2, 3);
    assert SpaceAt(s, 4);
    assert KeyOpensAt(s, 1, 1);
    LoadDictColonExpected(s, 1, 1, 1, [], 5);
    LoadDictRoot(s);
  }

  lemma TrailingCommaRejected()
    ensures Load("{\"a\":1,}") == Failure(KeyNotString)
  {
    var s := "{\"a\":1,}";
    assert s[0] == '{' && s[1] == '"' && s[2] == 'a' && s[3] == '"' && s[4] == ':' && s[5] == '1' && s[6] == ',';
    assert s[7] == '}';
    FirstMemberA(s);
    assert KeyOpensAt(s, 6, 7);
    LoadDictKeyNotString(s, 6, 6, 7, [Member("a", Int(1))]);
  }

  /** `{"a":1,` and anything after it: the dictionary holds a = 1 and goes
      on at the comma. */
  lemma {:induction false} FirstMemberA(s: string)
    requires |s| > 6 && s[0] == '{' && s[1] == '"' && s[2] == 'a' && s[3] == '"'
    requires s[4] == ':' && s[5] == '1' && s[6] == ','
    ensures var rest := LoadDict(s, 6, [Member("a", Int(1))]);
      && (rest.Success? ==> Load(s) == Success(Dict(rest.value.0)))
      && (rest.Failure? ==> Load(s) == Failure(rest.error))
  {
    DecodeOne(s, 2);
    LoadStringOfDecoded(s, 2, 3);
    assert KeyOpensAt(s, 1, 1);
    SingleDigit(s, 5);
    LoadDictMember(s, 1, 1, 1, [], 4);
    assert Emplace([], "a", Int(1)) == [Member("a", Int(1))];
    LoadDictRoot(s);
  }

  lemma RepeatedKeyKeepsFirst()
    ensures Load("{\"a\":1,\"a\":2}") == Success(Dict([Member("a", Int(1))]))
  {
    var s := "{\"a\":1,\"a\":2}";
    assert s[0] == '{' && s[1] == '"' && s[2] == 'a' && s[3] == '"' && s[4] == ':' && s[5] == '1' && s[6] == ',';
    assert s[7] == '"' && s[8] == 'a' && s[9] == '"' && s[10] == ':' && s[11] == '2' && s[12] == '}';
    SecondMemberA(s);
  }

  /** `{"a":1,"a":2}`. */
  lemma {:induction false} SecondMemberA(s: string)
    requires |s| == 13 && s[0] == '{' && s[1] == '"' && s[2] == 'a' && s[3] == '"'
    requires s[4] == ':' && s[5] == '1' && s[6] == ','
    requires s[7] == '"' && s[8] == 'a' && s[9] == '"' && s[10] == ':' && s[11] == '2' && s[12] == '}'
    ensures Load(s) == Success(Dict([Member("a", Int(1))]))
  {
    FirstMemberA(s);
    SecondMemberATail(s);
  }

  /** The tail `,"a":2}` of it, read with a = 1 already present. */
  lemma {:induction false} SecondMemberATail(s: string)
    requires |s| == 13 && s[6] == ','
    requires s[7] == '"' && s[8] == 'a' && s[9] == '"' && s[10] == ':' && s[11] == '2' && s[12] == '}'
    ensures LoadDict(s, 6, [Member("a", Int(1))]) == Success(([Member("a", Int(1))], 13))
  {
    var acc := [Member("a", Int(1))];
    DecodeOne(s, 8);
    LoadStringOfDecoded(s, 8, 9);
    assert KeyOpensAt(s, 6, 7);
    SingleDigit(s, 11);
    LoadDictMember(s, 6, 6, 7, acc, 10);
    assert Emplace(acc, "a", Int(2)) == acc;
    LoadDictClose(s, 12, 12, acc);
  }
}
