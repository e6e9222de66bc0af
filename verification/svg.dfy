/** The SVG writer of svg.cpp: colours, stroke keywords, the three shapes,
    the escaping of text data and the document frame.  Output is a string
    instead of an ostream.  How a double is written is the parameter `fmt`;
    the path properties an object carries (fill, stroke, widths) are
    rendered by code declared in svg.h and appear here as the already
    rendered text `attrs`; the indentation a RenderContext writes is the
    string `indent`. */
module Svg {
  import opened Wrappers
  import opened Json
  import opened JsonPrinter

  /* ---------------------------------------------------------------------
     Colours (svg.cpp:7-26)
     --------------------------------------------------------------------- */

  /** A colour channel: an 8-bit value, written as an int. */
  type Channel = n: nat | n < 256

  datatype Color =
    | Named(name: string)
    | Rgb(red: Channel, green: Channel, blue: Channel)
    | Rgba(red: Channel, green: Channel, blue: Channel, opacity: real)

  /** A named colour is written as is; the others in the functional
      notation rgb(...) or rgba(...). */
  function ColorText(color: Color, fmt: DoubleFormat): (r: string)
    ensures color.Named? ==> r == color.name
    ensures color.Rgb? ==> |r| > 4 && r[..4] == "rgb(" && r[|r| - 1] == ')'
    ensures color.Rgba? ==> |r| > 5 && r[..5] == "rgba(" && r[|r| - 1] == ')'
  {
    match color
    case Named(name) => name
    case Rgb(r, g, b) => "rgb(" + Channels(r, g, b) + ")"
    case Rgba(r, g, b, a) => "rgba(" + Channels(r, g, b) + "," + fmt(a) + ")"
  }

  /** The three channels as ints, comma-separated. */
  function Channels(r: Channel, g: Channel, b: Channel): string {
    NatToString(r) + "," + NatToString(g) + "," + NatToString(b)
  }

  /** Decimal digits never contain a separator of the colour syntax. */
  lemma {:induction false} DigitsLack(n: nat, ch: char)
    requires !IsDigit(ch)
    ensures forall k :: 0 <= k < |NatToString(n)| ==> NatToString(n)[k] != ch
  {
  }

  /** Distinct numbers have distinct decimal forms. */
  lemma {:induction false} NatToStringInjective(n: nat, m: nat)
    requires NatToString(n) == NatToString(m)
    ensures n == m
    decreases n
  {
    var t := NatToString(n);
    if |t| > 1 {
      assert n >= 10 && m >= 10;
      assert t[..|t| - 1] == NatToString(n / 10);
      assert t[..|t| - 1] == NatToString(m / 10);
      NatToStringInjective(n / 10, m / 10);
      assert t[|t| - 1] == '0' + ((n % 10) as char) == '0' + ((m % 10) as char);
    } else {
      assert n < 10 && m < 10;
      assert t[0] == '0' + (n as char) == '0' + (m as char);
    }
  }

  /** Where the first `ch` of `s` stands; `|s|` when there is none. */
  function IndexOf(s: string, ch: char): (r: nat)
    ensures r <= |s|
  {
    if s == [] then 0 else if s[0] == ch then 0 else 1 + IndexOf(s[1..], ch)
  }

  /** The first separator after a separator-free head ends the head. */
  lemma {:induction false} IndexOfHead(a: string, ch: char, b: string)
    requires forall k :: 0 <= k < |a| ==> a[k] != ch
    ensures IndexOf(a + [ch] + b, ch) == |a|
  {
    if a != [] {
      assert (a + [ch] + b)[1..] == a[1..] + [ch] + b;
      assert a[0] != ch;
      IndexOfHead(a[1..], ch, b);
    }
  }

  /** Dropping a common prefix. */
  lemma {:induction false} DropPrefix(p: string, x: string, y: string)
    requires p + x == p + y
    ensures x == y
  {
    assert x == (p + x)[|p|..];
    assert y == (p + y)[|p|..];
  }

  /** A separator after a separator-free head marks where the head ends. */
  lemma {:induction false} SplitAtFirst(a: string, b: string, a': string, b': string, ch: char)
    requires forall k :: 0 <= k < |a| ==> a[k] != ch
    requires forall k :: 0 <= k < |a'| ==> a'[k] != ch
    requires a + [ch] + b == a' + [ch] + b'
    ensures a == a' && b == b'
  {
    var s := a + [ch] + b;
    IndexOfHead(a, ch, b);
    IndexOfHead(a', ch, b');
    assert |a| == |a'|;
    assert a == s[..|a|];
    assert a' == (a' + [ch] + b')[..|a'|];
    assert b == s[|a| + 1..];
    assert b' == (a' + [ch] + b')[|a'| + 1..];
  }

  /** A number and the text after its separator are read back from the
      front of `NatToString(n) + [ch] + rest`. */
  lemma {:induction false} NumberField(n: nat, rest: string, n': nat, rest': string, ch: char)
    requires !IsDigit(ch)
    requires NatToString(n) + [ch] + rest == NatToString(n') + [ch] + rest'
    ensures n == n' && rest == rest'
  {
    DigitsLack(n, ch);
    DigitsLack(n', ch);
    SplitAtFirst(NatToString(n), rest, NatToString(n'), rest', ch);
    NatToStringInjective(n, n');
  }

  /** The channels are read back from their text, whatever non-digit
      follows it. */
  lemma {:induction false} ChannelsInjective(r: Channel, g: Channel, b: Channel, rest: string,
                          r': Channel, g': Channel, b': Channel, rest': string, ch: char)
    requires !IsDigit(ch)
    requires Channels(r, g, b) + [ch] + rest == Channels(r', g', b') + [ch] + rest'
    ensures r == r' && g == g' && b == b' && rest == rest'
  {
    var t, t' := [ch] + rest, [ch] + rest';
    AppendAssoc(Channels(r, g, b), [ch], rest);
    AppendAssoc(Channels(r', g', b'), [ch], rest');
    ChannelsSplit(r, g, b, t);
    ChannelsSplit(r', g', b', t');
    NumberField(r, (NatToString(g) + [',']) + (NatToString(b) + t), r', (NatToString(g') + [',']) + (NatToString(b') + t'), ',');
    NumberField(g, NatToString(b) + t, g', NatToString(b') + t', ',');
    AppendAssoc(NatToString(b), [ch], rest);
    AppendAssoc(NatToString(b'), [ch], rest');
    NumberField(b, rest, b', rest', ch);
  }

  /** The three channel fields of `Channels`, regrouped field by field. */
  lemma {:induction false} ChannelsSplit(r: Channel, g: Channel, b: Channel, t: string)
    ensures Channels(r, g, b) + t
         == (NatToString(r) + [',']) + ((NatToString(g) + [',']) + (NatToString(b) + t))
  {
    var R, G, B := NatToString(r), NatToString(g), NatToString(b);
    AppendAssoc(R + [','] + G + [','], B, t);
    AppendAssoc(R + [','] + G, [','], B + t);
    AppendAssoc(R + [','], G, [','] + (B + t));
    AppendAssoc(G, [','], B + t);
  }

  /** Different rgb colours are written differently. */
  lemma {:induction false} RgbTextInjective(r: Channel, g: Channel, b: Channel, r': Channel, g': Channel, b': Channel,
                         fmt: DoubleFormat)
    requires ColorText(Rgb(r, g, b), fmt) == ColorText(Rgb(r', g', b'), fmt)
    ensures r == r' && g == g' && b == b'
  {
    assert ColorText(Rgb(r, g, b), fmt) == "rgb(" + (Channels(r, g, b) + [')'] + []);
    assert ColorText(Rgb(r', g', b'), fmt) == "rgb(" + (Channels(r', g', b') + [')'] + []);
    DropPrefix("rgb(", Channels(r, g, b) + [')'] + [], Channels(r', g', b') + [')'] + []);
    ChannelsInjective(r, g, b, [], r', g', b', [], ')');
  }

  /** Different rgba colours are written differently, up to how the
      opacity is written. */
  lemma {:induction false} RgbaTextInjective(r: Channel, g: Channel, b: Channel, a: real,
                          r': Channel, g': Channel, b': Channel, a': real, fmt: DoubleFormat)
    requires ColorText(Rgba(r, g, b, a), fmt) == ColorText(Rgba(r', g', b', a'), fmt)
    ensures r == r' && g == g' && b == b' && fmt(a) == fmt(a')
  {
    var t, t' := fmt(a) + ")", fmt(a') + ")";
    assert ColorText(Rgba(r, g, b, a), fmt) == "rgba(" + (Channels(r, g, b) + [','] + t);
    assert ColorText(Rgba(r', g', b', a'), fmt) == "rgba(" + (Channels(r', g', b') + [','] + t');
    DropPrefix("rgba(", Channels(r, g, b) + [','] + t, Channels(r', g', b') + [','] + t');
    ChannelsInjective(r, g, b, t, r', g', b', t', ',');
    assert fmt(a) == t[..|t| - 1] && fmt(a') == t'[..|t'| - 1];
  }

  /** An rgb colour never reads as an rgba colour. */
  lemma {:induction false} RgbIsNotRgba(r: Channel, g: Channel, b: Channel, r': Channel, g': Channel, b': Channel, a: real,
                     fmt: DoubleFormat)
    ensures ColorText(Rgb(r, g, b), fmt) != ColorText(Rgba(r', g', b', a), fmt)
  {
    assert ColorText(Rgb(r, g, b), fmt)[3] == '(';
    assert ColorText(Rgba(r', g', b', a), fmt)[3] == 'a';
  }

  /* ---------------------------------------------------------------------
     Stroke keywords (svg.cpp:28-46)
     --------------------------------------------------------------------- */

  datatype StrokeLineCap = Butt | RoundCap | Square

  datatype StrokeLineJoin = Arcs | Bevel | Miter | MiterClip | RoundJoin

  function CapKeyword(cap: StrokeLineCap): (r: string)
    ensures r != []
  {
    match cap
    case Butt => "butt"
    case RoundCap => "round"
    case Square => "square"
  }

  function JoinKeyword(join: StrokeLineJoin): (r: string)
    ensures r != []
  {
    match join
    case Arcs => "arcs"
    case Bevel => "bevel"
    case Miter => "miter"
    case MiterClip => "miter-clip"
    case RoundJoin => "round"
  }

  /** Each line cap has its own keyword. */
  lemma {:induction false} CapKeywordInjective(a: StrokeLineCap, b: StrokeLineCap)
    ensures CapKeyword(a) == CapKeyword(b) <==> a == b
  {
    if a != b {
      assert CapKeyword(a)[0] != CapKeyword(b)[0];
    }
  }

  /** Each line join has its own keyword; "miter" is a proper prefix of
      "miter-clip", not the same word. */
  lemma {:induction false} JoinKeywordInjective(a: StrokeLineJoin, b: StrokeLineJoin)
    ensures JoinKeyword(a) == JoinKeyword(b) <==> a == b
  {
    if a != b {
      if {a, b} == {Miter, MiterClip} {
        assert |JoinKeyword(a)| != |JoinKeyword(b)|;
      } else {
        assert JoinKeyword(a)[0] != JoinKeyword(b)[0];
      }
    }
  }

  /* ---------------------------------------------------------------------
     Text data (svg.cpp:143-152)
     --------------------------------------------------------------------- */

  /** The five predefined entities of section 4.6 of the XML 1.0
      recommendation. */
  function EntityOf(c: char): string {
    match c
    case '<' => "&lt;"
    case '>' => "&gt;"
    case '&' => "&amp;"
    case '"' => "&quot;"
    case '\'' => "&apos;"
    case _ => [c]
  }

  function EscapeText(data: string): (r: string)
    ensures |r| >= |data|
  {
    if data == [] then [] else EntityOf(data[0]) + EscapeText(data[1..])
  }

  /** A character markup gives a meaning to. */
  predicate Special(c: char) {
    c in "<>&\"'"
  }

  /** One of the five entities starts at the front of `s`. */
  predicate EntityStart(s: string) {
    "&lt;" <= s || "&gt;" <= s || "&amp;" <= s || "&quot;" <= s || "&apos;" <= s
  }

  /** The reference reading of escaped text: the five entities stand for
      their characters, everything else for itself. */
  function Unescape(s: string): string
    decreases |s|
  {
    if s == [] then []
    else if "&lt;" <= s then "<" + Unescape(s[4..])
    else if "&gt;" <= s then ">" + Unescape(s[4..])
    else if "&amp;" <= s then "&" + Unescape(s[5..])
    else if "&quot;" <= s then "\"" + Unescape(s[6..])
    else if "&apos;" <= s then "'" + Unescape(s[6..])
    else [s[0]] + Unescape(s[1..])
  }

  /** Reading one escaped character back. */
  lemma {:induction false} UnescapeChar(c: char, rest: string)
    ensures Unescape(EntityOf(c) + rest) == [c] + Unescape(rest)
  {
    match c
    case '<' => UnescapeEntity("&lt;", c, rest);
    case '>' => UnescapeEntity("&gt;", c, rest);
    case '&' => UnescapeEntity("&amp;", c, rest);
    case '"' => UnescapeEntity("&quot;", c, rest);
    case '\'' => UnescapeEntity("&apos;", c, rest);
    case _ =>
      var s := EntityOf(c) + rest;
      assert s[0] == c && s[1..] == rest;
  }

  /** An entity followed by more text reads back as its character. */
  lemma {:induction false} UnescapeEntity(entity: string, c: char, rest: string)
    requires || (entity == "&lt;" && c == '<') || (entity == "&gt;" && c == '>')
             || (entity == "&amp;" && c == '&') || (entity == "&quot;" && c == '"')
             || (entity == "&apos;" && c == '\'')
    ensures Unescape(entity + rest) == [c] + Unescape(rest)
  {
    var s := entity + rest;
    assert s[..|entity|] == entity && s[|entity|..] == rest;
    assert s[1] == entity[1] && s[2] == entity[2];
  }

  /** Unescaping escaped text gives the text back. */
  lemma {:induction false} UnescapeEscape(data: string)
    ensures Unescape(EscapeText(data)) == data
  {
    if data != [] {
      UnescapeChar(data[0], EscapeText(data[1..]));
      UnescapeEscape(data[1..]);
      assert [data[0]] + data[1..] == data;
    }
  }

  /** The characters an escaped character contributes are safe. */
  lemma {:induction false} EscapeHeadSafe(c: char, rest: string, k: nat)
    requires k < |EntityOf(c)|
    ensures (EntityOf(c) + rest)[k] !in "<>\"'"
    ensures (EntityOf(c) + rest)[k] == '&' ==> EntityStart((EntityOf(c) + rest)[k..])
  {
    var r := EntityOf(c) + rest;
    assert r[k] == EntityOf(c)[k];
    if k == 0 && r[k] == '&' {
      assert EntityOf(c) <= r[k..];
    }
  }

  /** Past its head, a concatenation reads as its tail. */
  lemma {:induction false} AppendShift(head: string, tail: string, k: nat)
    requires |head| <= k < |head| + |tail|
    ensures (head + tail)[k] == tail[k - |head|] && (head + tail)[k..] == tail[k - |head|..]
  {
  }

  /** Escaped text holds no raw `<`, `>`, `"` or `'`, and every `&` in it
      starts an entity. */
  lemma {:induction false} EscapeTextSafe(data: string)
    ensures forall k :: 0 <= k < |EscapeText(data)| ==> EscapeText(data)[k] !in "<>\"'"
    ensures forall k :: 0 <= k < |EscapeText(data)| && EscapeText(data)[k] == '&' ==>
      EntityStart(EscapeText(data)[k..])
  {
    if data != [] {
      var head := EntityOf(data[0]);
      var tail := EscapeText(data[1..]);
      var r := EscapeText(data);
      EscapeTextSafe(data[1..]);
      forall k | 0 <= k < |r|
        ensures r[k] !in "<>\"'"
        ensures r[k] == '&' ==> EntityStart(r[k..])
      {
        if k < |head| {
          EscapeHeadSafe(data[0], tail, k);
        } else {
          AppendShift(head, tail, k);
        }
      }
    }
  }

  /** Text without special characters is written unchanged. */
  lemma {:induction false} EscapePlain(data: string)
    requires forall k :: 0 <= k < |data| ==> !Special(data[k])
    ensures EscapeText(data) == data
  {
    if data != [] {
      assert !Special(data[0]);
      EscapePlain(data[1..]);
      assert [data[0]] + data[1..] == data;
    }
  }

  /* ---------------------------------------------------------------------
     Shapes (svg.cpp:48-155)
     --------------------------------------------------------------------- */

  datatype Point = Point(x: real, y: real)

  /** The font size is an unsigned 32-bit value. */
  type Uint32 = n: nat | n < 0x1_0000_0000

  datatype Object =
    | Circle(center: Point, radius: real, attrs: string)
    | Polyline(points: seq<Point>, attrs: string)
    | Text(position: Point, offset: Point, fontSize: Uint32, fontFamily: string, fontWeight: string,
           data: string, attrs: string)

  function PointText(p: Point, fmt: DoubleFormat): string {
    fmt(p.x) + "," + fmt(p.y)
  }

  /** The reference list of points: one after another, a single space
      between two neighbours. */
  function PointList(points: seq<Point>, fmt: DoubleFormat): string
    decreases |points|
  {
    if points == [] then []
    else if |points| == 1 then PointText(points[0], fmt)
    else PointText(points[0], fmt) + " " + PointList(points[1..], fmt)
  }

  /** Adding a point writes it last, after one space. */
  lemma {:induction false} PointListAppend(points: seq<Point>, p: Point, fmt: DoubleFormat)
    requires points != []
    ensures PointList(points + [p], fmt) == PointList(points, fmt) + " " + PointText(p, fmt)
    decreases |points|
  {
    var ps := points + [p];
    if |points| == 1 {
      assert ps[1..] == [p];
    } else {
      assert ps[1..] == points[1..] + [p];
      PointListAppend(points[1..], p, fmt);
    }
  }

  /** The loop of Polyline::RenderObject over the points: every point, and
      a space after all but the last. */
  method RenderPoints(points: seq<Point>, fmt: DoubleFormat) returns (out: string)
    ensures out == PointList(points, fmt)
  {
    out := "";
    var i := 0;
    while i < |points|
      invariant 0 <= i <= |points|
      invariant out == if i == 0 then "" else PointList(points[..i], fmt) + (if i < |points| then " " else "")
    {
      if i > 0 {
        assert points[..i + 1] == points[..i] + [points[i]];
        PointListAppend(points[..i], points[i], fmt);
      } else {
        assert points[..1] == [points[0]];
      }
      out := out + PointText(points[i], fmt);
      if i != |points| - 1 {
        out := out + " ";
      }
      i := i + 1;
    }
    assert points[..i] == points;
  }

  /** The font attributes: each written only when it is not empty. */
  function FontAttrs(family: string, weight: string): (r: string)
    ensures r == [] <==> family == [] && weight == []
  {
    (if family != [] then " font-family=\"" + family + "\"" else "")
    + (if weight != [] then " font-weight=\"" + weight + "\"" else "")
  }

  /** The markup of one object, without indentation and line end. */
  function RenderObject(obj: Object, fmt: DoubleFormat): (r: string)
    ensures obj.Circle? ==> |r| > 9 && r[..8] == "<circle " && r[|r| - 2..] == "/>"
    ensures obj.Polyline? ==>
      var head := "<polyline points=\"" + PointList(obj.points, fmt) + "\"";
      |r| > |head| + 1 && r[..|head|] == head && r[|r| - 2..] == "/>"
    ensures obj.Text? ==> |r| > 12 && r[..5] == "<text" && r[|r| - 7..] == "</text>"
  {
    match obj
    case Circle(c, r, attrs) =>
      "<circle cx=\"" + fmt(c.x) + "\" cy=\"" + fmt(c.y) + "\" " + "r=\"" + fmt(r) + "\"" + attrs + "/>"
    case Polyline(points, attrs) =>
      "<polyline points=\"" + PointList(points, fmt) + "\"" + attrs + "/>"
    case Text(pos, offset, size, family, weight, data, attrs) =>
      TextOpenTag(pos, offset, size, family, weight, attrs, fmt) + EscapeText(data) + "</text>"
  }

  function TextOpenTag(pos: Point, offset: Point, size: Uint32, family: string, weight: string, attrs: string,
                       fmt: DoubleFormat): string
  {
    "<text" + attrs
    + " x=\"" + fmt(pos.x) + "\"" + " y=\"" + fmt(pos.y) + "\""
    + " dx=\"" + fmt(offset.x) + "\"" + " dy=\"" + fmt(offset.y) + "\""
    + " font-size=\"" + NatToString(size) + "\""
    + FontAttrs(family, weight) + ">"
  }

  /** The data of a text cannot close or open an element: between the
      opening tag and `</text>` there is no `<`, and the data reads back
      from what is written there. */
  lemma {:induction false} TextContent(obj: Object, fmt: DoubleFormat)
    requires obj.Text?
    ensures exists open :: RenderObject(obj, fmt) == open + EscapeText(obj.data) + "</text>"
    ensures forall k :: 0 <= k < |EscapeText(obj.data)| ==> EscapeText(obj.data)[k] != '<'
    ensures Unescape(EscapeText(obj.data)) == obj.data
  {
    EscapeTextSafe(obj.data);
    UnescapeEscape(obj.data);
    var open := TextOpenTag(obj.position, obj.offset, obj.fontSize, obj.fontFamily, obj.fontWeight, obj.attrs, fmt);
    assert RenderObject(obj, fmt) == open + EscapeText(obj.data) + "</text>";
  }

  /* ---------------------------------------------------------------------
     Document (svg.cpp:48-52, 157-171)
     --------------------------------------------------------------------- */

  datatype Document = Document(objects: seq<Object>)

  function AddPtr(doc: Document, obj: Object): (r: Document)
    ensures |r.objects| == |doc.objects| + 1
    ensures r.objects[..|doc.objects|] == doc.objects && r.objects[|doc.objects|] == obj
  {
    Document(doc.objects + [obj])
  }

  const Header := "<?xml version=\"1.0\" encoding=\"UTF-8\" ?>\n"
  const SvgOpen := "<svg xmlns=\"http://www.w3.org/2000/svg\" version=\"1.1\">\n"
  const SvgClose := "</svg>\n"

  /** Object::Render: indentation, the markup, the end of line. */
  function ObjectLine(obj: Object, indent: string, fmt: DoubleFormat): string {
    indent + RenderObject(obj, fmt) + "\n"
  }

  /** The objects, one line each, in insertion order. */
  function Body(objects: seq<Object>, indent: string, fmt: DoubleFormat): string
    decreases |objects|
  {
    if objects == [] then []
    else Body(objects[..|objects| - 1], indent, fmt) + ObjectLine(objects[|objects| - 1], indent, fmt)
  }

  /** The XML declaration, the svg element and one line per object. */
  function Render(doc: Document, indent: string, fmt: DoubleFormat): (r: string)
    ensures |r| >= |Header + SvgOpen| + |SvgClose|
    ensures r[..|Header + SvgOpen|] == Header + SvgOpen && r[|r| - |SvgClose|..] == SvgClose
    ensures doc.objects == [] <==> r == Header + SvgOpen + SvgClose
  {
    Header + SvgOpen + Body(doc.objects, indent, fmt) + SvgClose
  }

  /** Adding an object writes its line after every line written before,
      just ahead of the closing tag. */
  lemma {:induction false} RenderAddPtr(doc: Document, obj: Object, indent: string, fmt: DoubleFormat)
    ensures Render(AddPtr(doc, obj), indent, fmt)
         == Header + SvgOpen + (Body(doc.objects, indent, fmt) + ObjectLine(obj, indent, fmt)) + SvgClose
  {
    BodySnoc(doc.objects, obj, indent, fmt);
  }

  /** One more object adds its line at the end of the body. */
  lemma {:induction false} BodySnoc(objects: seq<Object>, obj: Object, indent: string, fmt: DoubleFormat)
    ensures Body(objects + [obj], indent, fmt) == Body(objects, indent, fmt) + ObjectLine(obj, indent, fmt)
  {
    var t := objects + [obj];
    assert t[..|t| - 1] == objects;
  }

  /** The body of two runs of objects is the body of the first followed by
      the body of the second: lines keep the order the objects were added. */
  lemma {:induction false} BodyAppend(xs: seq<Object>, ys: seq<Object>, indent: string, fmt: DoubleFormat)
    ensures Body(xs + ys, indent, fmt) == Body(xs, indent, fmt) + Body(ys, indent, fmt)
    decreases |ys|
  {
    if ys == [] {
      assert xs + ys == xs;
    } else {
      var init, last := ys[..|ys| - 1], ys[|ys| - 1];
      assert ys == init + [last];
      assert xs + ys == (xs + init) + [last];
      BodySnoc(xs + init, last, indent, fmt);
      BodySnoc(init, last, indent, fmt);
      BodyAppend(xs, init, indent, fmt);
      AppendAssoc(Body(xs, indent, fmt), Body(init, indent, fmt), ObjectLine(last, indent, fmt));
    }
  }
}
