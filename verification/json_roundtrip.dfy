/** The reader and the printer of json.cpp agree on scalars: reading back
    a printed string (as a value or as a dictionary key), a printed bare
    word or a printed int gives the same value and stops right after it. */
module JsonRoundTrip {
  import opened Wrappers
  import opened Json
  import opened JsonParser
  import opened JsonPrinter

  /** A value the round trip covers: not a double (its text form is not
      modelled), not a container, and an int that fits an int. */
  predicate Scalar(n: Node) {
    match n
    case Null => true
    case Bool(_) => true
    case Int(i) => IsInt32(i)
    case Str(_) => true
    case _ => false
  }

  /** `t` occurs in `s` at position p, character by character. */
  predicate At(s: string, p: nat, t: string)
    decreases t
  {
    p + |t| <= |s| && (t == [] || (s[p] == t[0] && At(s, p + 1, t[1..])))
  }

  lemma {:induction false} AtSplit(s: string, p: nat, a: string, b: string)
    requires At(s, p, a + b)
    ensures At(s, p, a) && At(s, p + |a|, b)
    decreases a
  {
    if a == [] {
      assert a + b == b;
    } else {
      assert (a + b)[0] == a[0] && (a + b)[1..] == a[1..] + b;
      AtSplit(s, p + 1, a[1..], b);
    }
  }

  lemma {:induction false} AtChar(s: string, p: nat, t: string, k: nat)
    requires At(s, p, t) && k < |t|
    ensures s[p + k] == t[k]
    decreases k
  {
    if k > 0 {
      AtChar(s, p + 1, t[1..], k - 1);
    }
  }

  lemma {:induction false} AtSlice(s: string, p: nat, t: string)
    requires At(s, p, t)
    ensures p + |t| <= |s| && s[p..p + |t|] == t
  {
    forall k | 0 <= k < |t| ensures s[p..p + |t|][k] == t[k] {
      AtChar(s, p, t, k);
    }
  }

  /** A prefix of `s` occurs at its start. */
  lemma {:induction false} AtPrefix(s: string, p: nat, t: string)
    requires p + |t| <= |s| && forall k :: 0 <= k < |t| ==> s[p + k] == t[k]
    ensures At(s, p, t)
    decreases t
  {
    if t != [] {
      assert s[p] == t[0];
      forall k | 0 <= k < |t[1..]| ensures s[p + 1 + k] == t[1..][k] {
        assert s[p + (k + 1)] == t[k + 1];
      }
      AtPrefix(s, p + 1, t[1..]);
    }
  }

  /** Characters after which a number or a bare word would read on. */
  predicate Follows(s: string, q: nat) {
    q < |s| && (IsAlpha(s[q]) || IsDigit(s[q]) || s[q] == '.')
  }

  /* ---------------------------------------------------------------------
     Strings, words and ints
     --------------------------------------------------------------------- */

  /** One printed character of a string body reads back as that character,
      in front of whatever the rest reads back as. */
  lemma {:induction false} LoadEscapedChar(s: string, q: nat, str: string, end: nat)
    requires str != [] && At(s, q, EscapeChar(str[0]))
    requires LoadString(s, q + |EscapeChar(str[0])|) == Success((str[1..], end))
    ensures LoadString(s, q) == Success((str, end))
  {
    var e := EscapeChar(str[0]);
    AtChar(s, q, e, 0);
    if str[0] in "\n\t\r\"\\" {
      AtChar(s, q, e, 1);
      UnescapeEscapeChar(str[0]);
      LoadEscapePair(s, q, str, end);
    } else {
      LoadPlainChar(s, q, str, end);
    }
  }

  /** The reader undoes the printer's two-character escapes. */
  lemma {:induction false} UnescapeEscapeChar(c: char)
    requires c in "\n\t\r\"\\"
    ensures Unescape(EscapeChar(c)[1]) == Some(c)
  {
  }

  /** A backslash pair in front of the rest reads back as its character. */
  lemma {:induction false} LoadEscapePair(s: string, q: nat, str: string, end: nat)
    requires str != [] && q + 1 < |s| && s[q] == '\\' && Unescape(s[q + 1]) == Some(str[0])
    requires LoadString(s, q + 2) == Success((str[1..], end))
    ensures LoadString(s, q) == Success((str, end))
  {
    assert [str[0]] + str[1..] == str;
  }

  /** A character printed as itself reads back as itself. */
  lemma {:induction false} LoadPlainChar(s: string, q: nat, str: string, end: nat)
    requires str != [] && q < |s| && s[q] == str[0] && str[0] !in "\n\t\r\"\\"
    requires LoadString(s, q + 1) == Success((str[1..], end))
    ensures LoadString(s, q) == Success((str, end))
  {
    assert [str[0]] + str[1..] == str;
  }

  lemma {:induction false} EscapeCons(str: string)
    requires str != []
    ensures Escape(str) == EscapeChar(str[0]) + Escape(str[1..])
    ensures |Escape(str)| == |EscapeChar(str[0])| + |Escape(str[1..])|
  {
  }

  /** Reading an escaped string body and its closing quote gives the string
      back: the printer escapes exactly what the reader unescapes. */
  lemma {:induction false} LoadEscaped(s: string, q: nat, str: string)
    requires At(s, q, Escape(str)) && At(s, q + |Escape(str)|, "\"")
    ensures LoadString(s, q) == Success((str, q + |Escape(str)| + 1))
    decreases str
  {
    if str == [] {
      LoadClosingQuote(s, q);
    } else {
      var head, tail := EscapeChar(str[0]), Escape(str[1..]);
      EscapeCons(str);
      AtSplit(s, q, head, tail);
      LoadEscaped(s, q + |head|, str[1..]);
      LoadEscapedStep(s, q, str);
    }
  }

  /** A closing quote ends an empty string body. */
  lemma {:induction false} LoadClosingQuote(s: string, q: nat)
    requires At(s, q, "\"")
    ensures LoadString(s, q) == Success(("", q + 1))
  {
    AtChar(s, q, "\"", 0);
  }

  /** The inductive step of LoadEscaped: the first character in front of the
      rest read back. */
  lemma {:induction false} LoadEscapedStep(s: string, q: nat, str: string)
    requires str != [] && At(s, q, EscapeChar(str[0]))
    requires q + |EscapeChar(str[0])| <= |s|
    requires LoadString(s, q + |EscapeChar(str[0])|)
      == Success((str[1..], q + |EscapeChar(str[0])| + |Escape(str[1..])| + 1))
    ensures LoadString(s, q) == Success((str, q + |Escape(str)| + 1))
  {
    EscapeCons(str);
    LoadEscapedChar(s, q, str, q + |Escape(str)| + 1);
  }

  /** A quoted string: the opening quote, and the body read back. */
  lemma {:induction false} LoadQuotedBody(s: string, p: nat, str: string)
    requires At(s, p, Quote(str))
    ensures s[p] == '"' && LoadString(s, p + 1) == Success((str, p + |Quote(str)|))
  {
    AtSplit(s, p, "\"" + Escape(str), "\"");
    AtSplit(s, p, "\"", Escape(str));
    AtChar(s, p, "\"", 0);
    LoadEscaped(s, p + 1, str);
  }

  /** Reading a printed string gives it back. */
  lemma {:induction false} LoadQuoted(s: string, p: nat, str: string)
    requires At(s, p, Quote(str))
    ensures LoadNode(s, p) == Success((Str(str), p + |Quote(str)|))
  {
    LoadQuotedBody(s, p, str);
    assert SkipSpaces(s, p) == p;
  }

  lemma {:induction false} AlphaEndOfRun(s: string, a: nat, b: nat)
    requires a <= b <= |s| && (forall k :: a <= k < b ==> IsAlpha(s[k])) && (b == |s| || !IsAlpha(s[b]))
    ensures AlphaEnd(s, a) == b
    decreases b - a
  {
    if a < b {
      AlphaEndOfRun(s, a + 1, b);
    }
  }

  /** A printed bare word is a maximal run of letters. */
  lemma {:induction false} WordAt(s: string, p: nat, w: string)
    requires w in {"true", "false", "null"} && At(s, p, w) && !Follows(s, p + |w|)
    ensures p < |s| && IsAlpha(s[p]) && AlphaEnd(s, p + 1) == p + |w| && s[p..p + |w|] == w
  {
    forall k | p <= k < p + |w| ensures IsAlpha(s[k]) {
      AtChar(s, p, w, k - p);
    }
    AlphaEndOfRun(s, p + 1, p + |w|);
    AtSlice(s, p, w);
  }

  lemma {:induction false} LoadWord(s: string, p: nat, w: string)
    requires w in {"true", "false", "null"} && At(s, p, w) && !Follows(s, p + |w|)
    ensures LoadNode(s, p) == Success((LoadLiteral(w).value, p + |w|))
  {
    WordAt(s, p, w);
    assert SkipSpaces(s, p) == p;
  }

  lemma {:induction false} DigitsValueOfNat(n: nat)
    ensures AllDigits(NatToString(n)) && DigitsValue(NatToString(n)) == n
  {
    var t := NatToString(n);
    if n >= 10 {
      DigitsValueOfNat(n / 10);
      assert t[..|t| - 1] == NatToString(n / 10);
    }
  }

  lemma {:induction false} NatToStringIntPart(n: nat)
    ensures IntPart(NatToString(n))
  {
    var t := NatToString(n);
    if t != "0" {
      assert '1' <= t[0] <= '9';
    }
  }

  /** The number span of printed digits, with or without a minus sign. */
  lemma {:induction false} PrintedDigitsSpan(s: string, p: nat, intStart: nat, magnitude: nat) returns (sp: NumberSpan)
    requires p <= intStart <= p + 1 && At(s, intStart, NatToString(magnitude))
    requires intStart == p + 1 ==> s[p] == '-'
    ensures sp.start == p && sp.intStart == intStart
    ensures sp.fracStart == sp.expStart == sp.end == intStart + |NatToString(magnitude)|
    ensures GrammarSpan(s, sp) && DigitsValue(s[sp.intStart..sp.fracStart]) == magnitude
  {
    var end := intStart + |NatToString(magnitude)|;
    sp := NumberSpan(p, intStart, end, end, end);
    DigitsValueOfNat(magnitude);
    NatToStringIntPart(magnitude);
    AtSlice(s, intStart, NatToString(magnitude));
    if intStart == p + 1 {
      assert s[p..intStart] == "-";
    } else {
      assert s[p..intStart] == [];
    }
    assert s[end..end] == [];
  }

  /** The number span of a printed int, and the int it denotes. */
  lemma {:induction false} PrintedIntSpan(s: string, p: nat, i: int) returns (sp: NumberSpan)
    requires At(s, p, IntToString(i)) && !Follows(s, p + |IntToString(i)|)
    ensures sp.start == p && sp.fracStart == sp.end == p + |IntToString(i)|
    ensures GrammarSpan(s, sp) && !Continues(s, sp.end) && SpanInt(s, sp) == i
    ensures p < |s| && (IsDigit(s[p]) || s[p] == '-')
  {
    AtChar(s, p, IntToString(i), 0);
    if i < 0 {
      AtSplit(s, p, "-", NatToString(-i));
      AtChar(s, p, "-", 0);
      sp := PrintedDigitsSpan(s, p, p + 1, -i);
    } else {
      sp := PrintedDigitsSpan(s, p, p, i);
    }
  }

  /** Reading a printed int gives it back, as an Int. */
  lemma {:induction false} LoadPrintedInt(s: string, p: nat, i: int)
    requires IsInt32(i) && At(s, p, IntToString(i)) && !Follows(s, p + |IntToString(i)|)
    ensures LoadNode(s, p) == Success((Int(i), p + |IntToString(i)|))
  {
    var sp := PrintedIntSpan(s, p, i);
    ScanNumberComplete(s, sp);
    assert LoadNumber(s, p) == Success((Int(i), sp.end));
    assert SkipSpaces(s, p) == p;
  }

  /* ---------------------------------------------------------------------
     Documents
     --------------------------------------------------------------------- */

  /** Reading a printed scalar gives it back and stops right after it. */
  lemma {:induction false} LoadPrintedScalar(s: string, p: nat, n: Node, fmt: DoubleFormat)
    requires Scalar(n) && At(s, p, PrintNode(n, 0, fmt)) && !Follows(s, p + |PrintNode(n, 0, fmt)|)
    ensures LoadNode(s, p) == Success((n, p + |PrintNode(n, 0, fmt)|))
  {
    if n.Null? || n.Bool? {
      LoadPrintedWord(s, p, n, fmt);
    } else if n.Int? {
      LoadPrintedNumber(s, p, n, fmt);
    } else {
      LoadPrintedString(s, p, n, fmt);
    }
  }

  lemma {:induction false} LoadPrintedWord(s: string, p: nat, n: Node, fmt: DoubleFormat)
    requires (n.Null? || n.Bool?) && At(s, p, PrintNode(n, 0, fmt)) && !Follows(s, p + |PrintNode(n, 0, fmt)|)
    ensures LoadNode(s, p) == Success((n, p + |PrintNode(n, 0, fmt)|))
  {
    LoadWord(s, p, PrintNode(n, 0, fmt));
  }

  lemma {:induction false} LoadPrintedNumber(s: string, p: nat, n: Node, fmt: DoubleFormat)
    requires n.Int? && IsInt32(n.i) && At(s, p, PrintNode(n, 0, fmt)) && !Follows(s, p + |PrintNode(n, 0, fmt)|)
    ensures LoadNode(s, p) == Success((n, p + |PrintNode(n, 0, fmt)|))
  {
    LoadPrintedInt(s, p, n.i);
  }

  lemma {:induction false} LoadPrintedString(s: string, p: nat, n: Node, fmt: DoubleFormat)
    requires n.Str? && At(s, p, PrintNode(n, 0, fmt))
    ensures LoadNode(s, p) == Success((n, p + |PrintNode(n, 0, fmt)|))
  {
    LoadQuoted(s, p, n.s);
  }

  /** Loading a printed document whose root is a scalar gives the root back. */
  lemma {:induction false} LoadPrint(root: Node, fmt: DoubleFormat)
    requires Scalar(root)
    ensures Load(Print(root, fmt)) == Success(root)
  {
    var s := Print(root, fmt);
    var t := PrintNode(root, 0, fmt);
    forall k | 0 <= k < |t| ensures s[0 + k] == t[k] {
      assert s[k] == (t + "\n")[k];
    }
    AtPrefix(s, 0, t);
    assert s[|t|] == '\n';
    LoadPrintedScalar(s, 0, root, fmt);
  }
}
