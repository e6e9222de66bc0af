/** The line-oriented reader of input_reader.cpp: "Stop X: lat, lng" and
    "Bus N: A - B - C" / "Bus N: A > B > A" lines are cut into a command, an
    id and a description, and applied to a catalogue, every stop before any
    bus.  Text is a `seq<char>`; the coordinates parser works on doubles and
    is the parameter `coords`. */
module InputReader {
  import opened Wrappers
  import opened Catalogue

  /* ---------------------------------------------------------------------
     string_view searches
     --------------------------------------------------------------------- */

  predicate AllSpaces(s: string) {
    forall k :: 0 <= k < |s| ==> s[k] == ' '
  }

  predicate Lacks(s: string, ch: char) {
    forall k :: 0 <= k < |s| ==> s[k] != ch
  }

  /** find_first_not_of(' ', from); None stands for npos. */
  function FirstNonSpace(s: string, from: nat): (r: Option<nat>)
    ensures r.Some? ==> from <= r.value < |s| && s[r.value] != ' '
    decreases |s| - from
  {
    if from >= |s| then None
    else if s[from] != ' ' then Some(from)
    else FirstNonSpace(s, from + 1)
  }

  /** Everything FirstNonSpace skips is a space. */
  lemma {:induction false} FirstNonSpaceSkips(s: string, from: nat)
    ensures var r := FirstNonSpace(s, from);
      forall k :: from <= k < |s| && (r.None? || k < r.value) ==> s[k] == ' '
    decreases |s| - from
  {
    if from < |s| && s[from] == ' ' {
      FirstNonSpaceSkips(s, from + 1);
    }
  }

  /** find_last_not_of(' '). */
  function LastNonSpace(s: string): (r: Option<nat>)
    ensures r.Some? ==> r.value < |s| && s[r.value] != ' '
  {
    if s == [] then None
    else if s[|s| - 1] != ' ' then Some(|s| - 1)
    else LastNonSpace(s[..|s| - 1])
  }

  /** Everything after LastNonSpace is a space. */
  lemma {:induction false} LastNonSpaceSkips(s: string)
    ensures var r := LastNonSpace(s);
      forall k :: 0 <= k < |s| && (r.None? || r.value < k) ==> s[k] == ' '
  {
    if s != [] && s[|s| - 1] == ' ' {
      LastNonSpaceSkips(s[..|s| - 1]);
      assert forall k :: 0 <= k < |s| - 1 ==> s[k] == s[..|s| - 1][k];
    }
  }

  /** find(ch, from); None stands for npos. */
  function FindChar(s: string, ch: char, from: nat): (r: Option<nat>)
    ensures r.Some? ==> from <= r.value < |s| && s[r.value] == ch
    decreases |s| - from
  {
    if from >= |s| then None
    else if s[from] == ch then Some(from)
    else FindChar(s, ch, from + 1)
  }

  /** FindChar reports the first occurrence. */
  lemma {:induction false} FindCharSkips(s: string, ch: char, from: nat)
    ensures var r := FindChar(s, ch, from);
      forall k :: from <= k < |s| && (r.None? || k < r.value) ==> s[k] != ch
    decreases |s| - from
  {
    if from < |s| && s[from] != ch {
      FindCharSkips(s, ch, from + 1);
    }
  }

  /** The first occurrence is where FindChar stops. */
  lemma {:induction false} FindCharAt(s: string, ch: char, from: nat, at: nat)
    requires from <= at < |s| && s[at] == ch && forall k :: from <= k < at ==> s[k] != ch
    ensures FindChar(s, ch, from) == Some(at)
  {
    FindCharSkips(s, ch, from);
  }

  /** The first non-space is where FirstNonSpace stops. */
  lemma {:induction false} FirstNonSpaceAt(s: string, from: nat, at: nat)
    requires from <= at < |s| && s[at] != ' ' && forall k :: from <= k < at ==> s[k] == ' '
    ensures FirstNonSpace(s, from) == Some(at)
  {
    FirstNonSpaceSkips(s, from);
  }

  /** The last non-space is where LastNonSpace stops. */
  lemma {:induction false} LastNonSpaceAt(s: string, at: nat)
    requires at < |s| && s[at] != ' ' && forall k :: at < k < |s| ==> s[k] == ' '
    ensures LastNonSpace(s) == Some(at)
  {
    LastNonSpaceSkips(s);
  }

  /** Without an occurrence FindChar gives npos. */
  lemma {:induction false} FindCharNone(s: string, ch: char, from: nat)
    requires forall k :: from <= k < |s| ==> s[k] != ch
    ensures FindChar(s, ch, from) == None
  {
  }

  /* ---------------------------------------------------------------------
     Trim (input_reader.cpp:29-35)
     --------------------------------------------------------------------- */

  /** No space at either end. */
  predicate Trimmed(t: string) {
    t == [] || (t[0] != ' ' && t[|t| - 1] != ' ')
  }

  /** The text without its leading and trailing spaces. */
  function Trim(s: string): (r: string)
    ensures Trimmed(r) && |r| <= |s|
    ensures r == [] <==> AllSpaces(s)
  {
    FirstNonSpaceSkips(s, 0);
    LastNonSpaceSkips(s);
    match FirstNonSpace(s, 0)
    case None => []
    case Some(start) =>
      var last := LastNonSpace(s);
      s[start..last.value + 1]
  }

  /** Trim removes exactly the blank padding: it gives back a trimmed string
      surrounded by any spaces. */
  lemma {:induction false} TrimPadded(a: string, t: string, b: string)
    requires AllSpaces(a) && AllSpaces(b) && Trimmed(t)
    ensures Trim(a + t + b) == t
  {
    var s := a + t + b;
    assert forall k :: 0 <= k < |a| ==> s[k] == a[k];
    assert forall k :: |a| + |t| <= k < |s| ==> s[k] == b[k - |a| - |t|];
    if t == [] {
      assert AllSpaces(s);
    } else {
      assert s[|a|] == t[0];
      assert s[|a| + |t| - 1] == t[|t| - 1];
      FirstNonSpaceAt(s, 0, |a|);
      LastNonSpaceAt(s, |a| + |t| - 1);
      assert s[|a|..|a| + |t|] == t;
    }
  }

  /** Every string is its trimmed core between two runs of spaces. */
  lemma {:induction false} TrimDecomposes(s: string) returns (a: string, b: string)
    ensures AllSpaces(a) && AllSpaces(b) && s == a + Trim(s) + b
  {
    FirstNonSpaceSkips(s, 0);
    LastNonSpaceSkips(s);
    match FirstNonSpace(s, 0)
    case None =>
      a, b := s, [];
    case Some(start) =>
      var last := LastNonSpace(s).value;
      a, b := s[..start], s[last + 1..];
      assert s == a + s[start..last + 1] + b;
  }

  /** A leading space does not change the trimmed text. */
  lemma {:induction false} TrimSkipsSpace(u: string)
    ensures Trim([' '] + u) == Trim(u)
  {
    var a, b := TrimDecomposes(u);
    var t := Trim(u);
    AppendAssoc([' '], a + t, b);
    AppendAssoc([' '], a, t);
    SpacesCons(a);
    TrimPaddedParts([' '] + a, t, b, [' '] + u);
  }

  /** TrimPadded, for a string given whole. */
  lemma {:induction false} TrimPaddedParts(a: string, t: string, b: string, s: string)
    requires AllSpaces(a) && AllSpaces(b) && Trimmed(t) && s == a + t + b
    ensures Trim(s) == t
  {
    TrimPadded(a, t, b);
  }

  lemma {:induction false} SpacesCons(a: string)
    requires AllSpaces(a)
    ensures AllSpaces([' '] + a)
  {
    assert forall k :: 1 <= k < |a| + 1 ==> ([' '] + a)[k] == a[k - 1];
  }

  /** Trimming keeps a character out that was not there. */
  lemma {:induction false} TrimLacks(s: string, ch: char)
    requires Lacks(s, ch)
    ensures Lacks(Trim(s), ch)
  {
    var a, b := TrimDecomposes(s);
    assert forall k :: 0 <= k < |Trim(s)| ==> Trim(s)[k] == s[|a| + k];
  }

  /* ---------------------------------------------------------------------
     Split (input_reader.cpp:37-51)
     --------------------------------------------------------------------- */

  /** The loop of Split from `pos` on: skip spaces, cut at the next
      delimiter (or the end), keep the trimmed piece when it is not empty,
      continue after the delimiter. */
  function SplitFrom(s: string, delim: char, pos: nat): seq<string>
    decreases |s| - pos
  {
    match FirstNonSpace(s, pos)
    case None => []
    case Some(p) =>
      var d := match FindChar(s, delim, p) case Some(d) => d case None => |s|;
      var piece := Trim(s[p..d]);
      Keep(piece) + SplitFrom(s, delim, d + 1)
  }

  /** The route fields: the reference pieces, each non-empty, trimmed and
      free of the delimiter. */
  function Split(s: string, delim: char): (r: seq<string>)
    ensures r == Pieces(s, delim)
    ensures forall k :: 0 <= k < |r| ==> r[k] != [] && Trimmed(r[k]) && Lacks(r[k], delim)
  {
    SplitFromPieces(s, delim, 0);
    assert s[0..] == s;
    PiecesShape(s, delim);
    SplitFrom(s, delim, 0)
  }

  /** A trimmed field as a piece: none when it is empty. */
  function Keep(t: string): seq<string> {
    if t == [] then [] else [t]
  }

  /** The reference reading of a route: the fields between delimiters,
      each trimmed, the empty ones dropped. */
  function Pieces(s: string, delim: char): seq<string>
    decreases |s|
  {
    match FindChar(s, delim, 0)
    case None => Keep(Trim(s))
    case Some(d) => Keep(Trim(s[..d])) + Pieces(s[d + 1..], delim)
  }

  /** Pieces of a string cut at its first delimiter. */
  lemma {:induction false} PiecesAt(s: string, delim: char, d: nat)
    requires d < |s| && s[d] == delim && forall k :: 0 <= k < d ==> s[k] != delim
    ensures Pieces(s, delim) == Keep(Trim(s[..d])) + Pieces(s[d + 1..], delim)
  {
    FindCharAt(s, delim, 0, d);
  }

  /** Pieces of a string without a delimiter. */
  lemma {:induction false} PiecesLast(s: string, delim: char)
    requires Lacks(s, delim)
    ensures Pieces(s, delim) == Keep(Trim(s))
  {
    FindCharNone(s, delim, 0);
  }

  /** Every reference piece is non-empty, trimmed and free of the
      delimiter. */
  lemma {:induction false} PiecesShape(s: string, delim: char)
    ensures forall k :: 0 <= k < |Pieces(s, delim)| ==>
      Pieces(s, delim)[k] != [] && Trimmed(Pieces(s, delim)[k]) && Lacks(Pieces(s, delim)[k], delim)
    decreases |s|
  {
    FindCharSkips(s, delim, 0);
    match FindChar(s, delim, 0)
    case None =>
      TrimLacks(s, delim);
    case Some(d) =>
      assert Lacks(s[..d], delim);
      TrimLacks(s[..d], delim);
      PiecesShape(s[d + 1..], delim);
  }

  lemma {:induction false} PiecesOfEmpty(delim: char)
    ensures Pieces([], delim) == []
  {
    assert AllSpaces([]);
  }

  /** A leading space is no piece of its own. */
  lemma {:induction false} PiecesSkipSpace(t: string, delim: char)
    requires t != [] && t[0] == ' '
    ensures Pieces(t, delim) == Pieces(t[1..], delim)
  {
    var u := t[1..];
    assert t == [' '] + u;
    if delim == ' ' {
      PiecesSkipSpaceDelim(u);
    } else {
      PiecesSkipSpaceOther(u, delim);
    }
  }

  lemma {:induction false} PiecesSkipSpaceDelim(u: string)
    ensures Pieces([' '] + u, ' ') == Pieces(u, ' ')
  {
    var t := [' '] + u;
    PiecesAt(t, ' ', 0);
    assert t[..0] == [] && AllSpaces([]);
    assert t[1..] == u;
  }

  lemma {:induction false} PiecesSkipSpaceOther(u: string, delim: char)
    requires delim != ' '
    ensures Pieces([' '] + u, delim) == Pieces(u, delim)
  {
    FindCharSkips(u, delim, 0);
    match FindChar(u, delim, 0)
    case None =>
      PiecesSkipSpaceLast(u, delim);
    case Some(d) =>
      PiecesSkipSpaceCut(u, delim, d);
  }

  lemma {:induction false} PiecesSkipSpaceLast(u: string, delim: char)
    requires delim != ' ' && Lacks(u, delim)
    ensures Pieces([' '] + u, delim) == Pieces(u, delim)
  {
    var t := [' '] + u;
    assert forall k :: 0 < k < |t| ==> t[k] == u[k - 1];
    PiecesLast(t, delim);
    PiecesLast(u, delim);
    TrimSkipsSpace(u);
  }

  lemma {:induction false} PiecesSkipSpaceCut(u: string, delim: char, d: nat)
    requires delim != ' ' && d < |u| && u[d] == delim && forall k :: 0 <= k < d ==> u[k] != delim
    ensures Pieces([' '] + u, delim) == Pieces(u, delim)
  {
    var t := [' '] + u;
    assert forall k :: 0 < k < |t| ==> t[k] == u[k - 1];
    SlicesAfterSpace(u, d);
    PiecesAtParts(t, delim, d + 1, [' '] + u[..d], u[d + 1..]);
    PiecesAtParts(u, delim, d, u[..d], u[d + 1..]);
    TrimSkipsSpace(u[..d]);
  }

  /** PiecesAt, with the two sides of the cut named. */
  lemma {:induction false} PiecesAtParts(s: string, delim: char, d: nat, before: string, after: string)
    requires d < |s| && s[d] == delim && forall k :: 0 <= k < d ==> s[k] != delim
    requires before == s[..d] && after == s[d + 1..]
    ensures Pieces(s, delim) == Keep(Trim(before)) + Pieces(after, delim)
  {
    PiecesAt(s, delim, d);
  }

  /** Slices of a string behind a leading space. */
  lemma {:induction false} SlicesAfterSpace(u: string, d: nat)
    requires d < |u|
    ensures ([' '] + u)[..d + 1] == [' '] + u[..d] && ([' '] + u)[d + 2..] == u[d + 1..]
  {
  }

  /** The loop steps over a space. */
  lemma {:induction false} SplitFromSpace(s: string, delim: char, pos: nat)
    requires pos < |s| && s[pos] == ' '
    ensures SplitFrom(s, delim, pos) == SplitFrom(s, delim, pos + 1)
  {
    assert FirstNonSpace(s, pos) == FirstNonSpace(s, pos + 1);
  }

  /** The loop at a non-space cuts at the next delimiter. */
  lemma {:induction false} SplitFromCut(s: string, delim: char, pos: nat, d: nat)
    requires pos < |s| && s[pos] != ' ' && FindChar(s, delim, pos) == Some(d)
    ensures SplitFrom(s, delim, pos) == Keep(Trim(s[pos..d])) + SplitFrom(s, delim, d + 1)
  {
  }

  /** The loop at a non-space without a delimiter ahead takes the rest. */
  lemma {:induction false} SplitFromRest(s: string, delim: char, pos: nat)
    requires pos < |s| && s[pos] != ' ' && FindChar(s, delim, pos) == None
    ensures SplitFrom(s, delim, pos) == Keep(Trim(s[pos..]))
  {
    assert FirstNonSpace(s, pos) == Some(pos);
    assert FirstNonSpace(s, |s| + 1) == None;
    assert s[pos..|s|] == s[pos..];
  }

  /** A position found in a string, seen from its suffix at `pos`. */
  function Shifted(r: Option<nat>, pos: nat): Option<nat> {
    if r.Some? && r.value >= pos then Some(r.value - pos) else None
  }

  /** Searching a suffix is searching the whole from the suffix's start. */
  lemma {:induction false} FindCharShift(s: string, ch: char, pos: nat, j: nat)
    requires pos <= |s|
    ensures FindChar(s[pos..], ch, j) == Shifted(FindChar(s, ch, pos + j), pos)
    decreases |s| - pos - j
  {
    if pos + j < |s| {
      assert s[pos..][j] == s[pos + j];
      FindCharShift(s, ch, pos, j + 1);
    }
  }

  /** One step of the reference reading, for a found delimiter. */
  lemma {:induction false} PiecesFound(t: string, delim: char, e: nat, before: string, after: string)
    requires FindChar(t, delim, 0) == Some(e) && before == t[..e] && after == t[e + 1..]
    ensures Pieces(t, delim) == Keep(Trim(before)) + Pieces(after, delim)
  {
  }

  /** The reference pieces of a suffix, cut where the loop would cut. */
  lemma {:induction false} PiecesSuffixCut(s: string, delim: char, pos: nat, d: nat)
    requires pos <= |s| && FindChar(s, delim, pos) == Some(d)
    ensures Pieces(s[pos..], delim) == Keep(Trim(s[pos..d])) + Pieces(s[d + 1..], delim)
  {
    FindCharShift(s, delim, pos, 0);
    SliceOfSuffix(s, pos, d);
    PiecesFound(s[pos..], delim, d - pos, s[pos..d], s[d + 1..]);
  }

  /** The two sides of a cut in a suffix, as slices of the whole. */
  lemma {:induction false} SliceOfSuffix(s: string, pos: nat, d: nat)
    requires pos <= d < |s|
    ensures s[pos..][..d - pos] == s[pos..d] && s[pos..][d - pos + 1..] == s[d + 1..]
  {
  }

  /** The reference pieces of a suffix without a delimiter. */
  lemma {:induction false} PiecesSuffixLast(s: string, delim: char, pos: nat)
    requires pos <= |s| && FindChar(s, delim, pos) == None
    ensures Pieces(s[pos..], delim) == Keep(Trim(s[pos..]))
  {
    FindCharShift(s, delim, pos, 0);
  }

  /** The loop of Split reads exactly the reference pieces. */
  lemma {:induction false} SplitFromPieces(s: string, delim: char, pos: nat)
    requires pos <= |s|
    ensures SplitFrom(s, delim, pos) == Pieces(s[pos..], delim)
    decreases |s| - pos
  {
    if pos == |s| {
      PiecesOfEmpty(delim);
    } else if s[pos] == ' ' {
      SplitFromPieces(s, delim, pos + 1);
      SplitFromPiecesSpace(s, delim, pos);
    } else {
      match FindChar(s, delim, pos)
      case None =>
        SplitFromPiecesLast(s, delim, pos);
      case Some(d) =>
        SplitFromPieces(s, delim, d + 1);
        SplitFromPiecesCut(s, delim, pos, d);
    }
  }

  /** Both readings step over a leading space. */
  lemma {:induction false} SplitFromPiecesSpace(s: string, delim: char, pos: nat)
    requires pos < |s| && s[pos] == ' '
    ensures SplitFrom(s, delim, pos) == SplitFrom(s, delim, pos + 1)
    ensures Pieces(s[pos..], delim) == Pieces(s[pos + 1..], delim)
  {
    SplitFromSpace(s, delim, pos);
    PiecesSkipSpace(s[pos..], delim);
    assert s[pos..][1..] == s[pos + 1..];
  }

  /** Both readings cut a field at the same delimiter. */
  lemma {:induction false} SplitFromPiecesCut(s: string, delim: char, pos: nat, d: nat)
    requires pos < |s| && s[pos] != ' ' && FindChar(s, delim, pos) == Some(d)
    ensures SplitFrom(s, delim, pos) == Keep(Trim(s[pos..d])) + SplitFrom(s, delim, d + 1)
    ensures Pieces(s[pos..], delim) == Keep(Trim(s[pos..d])) + Pieces(s[d + 1..], delim)
  {
    SplitFromCut(s, delim, pos, d);
    PiecesSuffixCut(s, delim, pos, d);
  }

  /** Both readings end with the last field. */
  lemma {:induction false} SplitFromPiecesLast(s: string, delim: char, pos: nat)
    requires pos < |s| && s[pos] != ' ' && FindChar(s, delim, pos) == None
    ensures SplitFrom(s, delim, pos) == Keep(Trim(s[pos..]))
    ensures Pieces(s[pos..], delim) == Keep(Trim(s[pos..]))
  {
    SplitFromRest(s, delim, pos);
    PiecesSuffixLast(s, delim, pos);
  }

  /** A route as it is written in the input: the names joined by
      " <delim> ". */
  function Join(names: seq<string>, delim: char): string
    decreases |names|
  {
    if names == [] then []
    else if |names| == 1 then names[0]
    else names[0] + [' ', delim, ' '] + Join(names[1..], delim)
  }

  /** Splitting a written route gives its stop names back, whenever the
      names are non-empty, trimmed and free of the delimiter. */
  lemma {:induction false} SplitJoin(names: seq<string>, delim: char)
    requires delim != ' '
    requires forall k :: 0 <= k < |names| ==> names[k] != [] && Trimmed(names[k]) && Lacks(names[k], delim)
    ensures Split(Join(names, delim), delim) == names
  {
    PiecesJoin(names, delim);
  }

  lemma {:induction false} PiecesJoin(names: seq<string>, delim: char)
    requires delim != ' '
    requires forall k :: 0 <= k < |names| ==> names[k] != [] && Trimmed(names[k]) && Lacks(names[k], delim)
    ensures Pieces(Join(names, delim), delim) == names
    decreases |names|
  {
    if names == [] {
      PiecesOfEmpty(delim);
    } else if |names| == 1 {
      PiecesLast(names[0], delim);
      TrimPadded([], names[0], []);
      assert [] + names[0] + [] == names[0];
    } else {
      PiecesJoinStep(names[0], Join(names[1..], delim), delim);
      PiecesJoin(names[1..], delim);
      assert names == [names[0]] + names[1..];
    }
  }

  /** One name and its separator are one piece. */
  lemma {:induction false} PiecesJoinStep(n: string, rest: string, delim: char)
    requires delim != ' ' && n != [] && Trimmed(n) && Lacks(n, delim)
    ensures Pieces(n + [' ', delim, ' '] + rest, delim) == [n] + Pieces(rest, delim)
  {
    var field := n + [' '];
    var tail := [' '] + rest;
    assert n + [' ', delim, ' '] + rest == field + [delim] + tail;
    assert Lacks(field, delim);
    PiecesCons(field, tail, delim);
    TrimSpaceAfter(n);
    PiecesSkipSpace(tail, delim);
    assert tail[1..] == rest;
  }

  /** A trailing space does not change a trimmed text. */
  lemma {:induction false} TrimSpaceAfter(n: string)
    requires Trimmed(n)
    ensures Trim(n + [' ']) == n
  {
    var s := [] + n + [' '];
    TrimPadded([], n, [' ']);
    assert s == n + [' '];
  }

  /** The field before the first delimiter, then the rest. */
  lemma {:induction false} PiecesCons(field: string, rest: string, delim: char)
    requires Lacks(field, delim)
    ensures Pieces(field + [delim] + rest, delim) == Keep(Trim(field)) + Pieces(rest, delim)
  {
    var s := field + [delim] + rest;
    assert forall k :: 0 <= k < |field| ==> s[k] == field[k];
    PiecesAt(s, delim, |field|);
    assert s[..|field|] == field;
    assert s[|field| + 1..] == rest;
  }

  /* ---------------------------------------------------------------------
     ParseCommandDescription (input_reader.cpp:53-71, input_reader.h:12-22)
     --------------------------------------------------------------------- */

  datatype CommandDescription = CommandDescription(command: string, id: string, description: string) {
    /** `operator bool`: a description counts when its command is not empty. */
    predicate Present() {
      command != []
    }
  }

  const NoCommand := CommandDescription([], [], [])

  /** The shape of a line `command<spaces>id:description` whose parts the
      parser separates: the command holds no space and no colon, the gap is
      spaces, the id starts with a non-space and holds no colon. */
  predicate Layout(command: string, gap: string, id: string) {
    && Lacks(command, ' ') && Lacks(command, ':')
    && gap != [] && AllSpaces(gap)
    && id != [] && id[0] != ' ' && Lacks(id, ':')
  }

  function ParseCommandDescription(line: string): (r: CommandDescription)
    ensures r != NoCommand ==>
      exists gap :: Layout(r.command, gap, r.id) && line == r.command + gap + r.id + ":" + r.description
  {
    match FindChar(line, ':', 0)
    case None =>
      NoCommand
    case Some(colon) =>
      match FindChar(line, ' ', 0)
      case None =>
        NoCommand
      case Some(space) =>
        if space >= colon then NoCommand
        else
          match FirstNonSpace(line, space)
          case None =>
            NoCommand
          case Some(notSpace) =>
            if notSpace >= colon then NoCommand
            else
              var r := CommandDescription(line[..space], line[notSpace..colon], line[colon + 1..]);
              var gap := line[space..notSpace];
              assert Layout(r.command, gap, r.id) by {
                FindCharSkips(line, ':', 0);
                FindCharSkips(line, ' ', 0);
                FirstNonSpaceSkips(line, space);
                assert forall k :: 0 <= k < |r.command| ==> r.command[k] == line[k];
                assert forall k :: 0 <= k < |gap| ==> gap[k] == line[space + k];
                assert forall k :: 0 <= k < |r.id| ==> r.id[k] == line[notSpace + k];
              }
              assert line == r.command + gap + r.id + [line[colon]] + r.description;
              r
  }

  /** A line laid out as `command<spaces>id:description` parses into exactly
      those three parts. */
  lemma {:induction false} ParseLayout(command: string, gap: string, id: string, description: string)
    requires Layout(command, gap, id)
    ensures ParseCommandDescription(command + gap + id + ":" + description)
         == CommandDescription(command, id, description)
  {
    var line := command + gap + id + ":" + description;
    var space := |command|;
    var notSpace := |command| + |gap|;
    var colon := notSpace + |id|;
    assert forall k :: 0 <= k < space ==> line[k] == command[k];
    assert forall k :: space <= k < notSpace ==> line[k] == gap[k - space];
    assert forall k :: notSpace <= k < colon ==> line[k] == id[k - notSpace];
    FindCharAt(line, ':', 0, colon);
    FindCharAt(line, ' ', 0, space);
    FirstNonSpaceAt(line, space, notSpace);
    assert line[..space] == command;
    assert line[notSpace..colon] == id;
    assert line[colon + 1..] == description;
  }

  /* ---------------------------------------------------------------------
     Reader (input_reader.cpp:82-112, input_reader.h:24-32)
     --------------------------------------------------------------------- */

  datatype Reader = Reader(commands: seq<CommandDescription>)

  /** ParseLine keeps a parsed line only when it names a command. */
  function ParseLine(reader: Reader, line: string): (r: Reader)
    ensures ParseCommandDescription(line).Present() ==>
      r.commands == reader.commands + [ParseCommandDescription(line)]
    ensures !ParseCommandDescription(line).Present() ==> r == reader
  {
    var cmd := ParseCommandDescription(line);
    if cmd.Present() then Reader(reader.commands + [cmd]) else reader
  }

  /** Every line fed to the reader, one ParseLine each. */
  function ParseLines(reader: Reader, lines: seq<string>): Reader
    decreases |lines|
  {
    if lines == [] then reader else ParseLines(ParseLine(reader, lines[0]), lines[1..])
  }

  /** The reader stores only descriptions with a command, and every laid-out
      line with a non-empty command is stored with its own parts. */
  lemma {:induction false} ParseLinesKeeps(reader: Reader, lines: seq<string>)
    requires forall k :: 0 <= k < |reader.commands| ==> reader.commands[k].Present()
    ensures var r := ParseLines(reader, lines);
      && |reader.commands| <= |r.commands| <= |reader.commands| + |lines|
      && r.commands[..|reader.commands|] == reader.commands
      && forall k :: 0 <= k < |r.commands| ==> r.commands[k].Present()
    decreases |lines|
  {
    if lines != [] {
      var next := ParseLine(reader, lines[0]);
      ParseLinesKeeps(next, lines[1..]);
      assert next.commands[..|reader.commands|] == reader.commands;
    }
  }

  /** A single laid-out line with a command is stored as its three parts. */
  lemma {:induction false} ParseLineLayout(reader: Reader, command: string, gap: string, id: string, description: string)
    requires Layout(command, gap, id) && command != []
    ensures ParseLine(reader, command + gap + id + ":" + description).commands
         == reader.commands + [CommandDescription(command, id, description)]
  {
    ParseLayout(command, gap, id, description);
  }

  /** Route description: circular exactly when it contains '>', whose pieces
      are then the stops; otherwise the pieces between '-'. */
  function ParseRoute(description: string): (r: (seq<string>, bool))
    ensures r.1 <==> !Lacks(description, '>')
    ensures r.0 == Pieces(description, if r.1 then '>' else '-')
  {
    var isCircle := FindChar(description, '>', 0).Some?;
    FindCharSkips(description, '>', 0);
    assert isCircle ==> description[FindChar(description, '>', 0).value] == '>';
    var delim := if isCircle then '>' else '-';
    (Split(description, delim), isCircle)
  }

  predicate IsStop(cmd: CommandDescription) {
    cmd.command == "Stop"
  }

  predicate IsBus(cmd: CommandDescription) {
    cmd.command == "Bus"
  }

  /** The ids of the Stop commands. */
  function StopIds(cmds: seq<CommandDescription>): set<string> {
    set k | 0 <= k < |cmds| && IsStop(cmds[k]) :: cmds[k].id
  }

  lemma {:induction false} StopIdsCons(cmds: seq<CommandDescription>)
    requires cmds != []
    ensures StopIds(cmds) == (if IsStop(cmds[0]) then {cmds[0].id} else {}) + StopIds(cmds[1..])
  {
    assert forall k :: 1 <= k < |cmds| ==> cmds[k] == cmds[1..][k - 1];
    forall n | n in StopIds(cmds[1..]) ensures n in StopIds(cmds) {
      var k :| 0 <= k < |cmds[1..]| && IsStop(cmds[1..][k]) && cmds[1..][k].id == n;
      assert cmds[k + 1] == cmds[1..][k];
    }
  }

  /** The first pass of ApplyCommands: every Stop command, in order. */
  function ApplyStops(c: TransportCatalogue, cmds: seq<CommandDescription>, coords: string -> Coordinates)
    : (r: TransportCatalogue)
    ensures forall n :: n in r.stopIndex <==> n in c.stopIndex || n in StopIds(cmds)
    ensures |c.stops| <= |r.stops| && r.stops[..|c.stops|] == c.stops
    ensures r.buses == c.buses && r.busIndex == c.busIndex
    ensures r.stopToBus == c.stopToBus && r.distances == c.distances
    ensures Valid(c) ==> Valid(r)
    decreases |cmds|
  {
    if cmds == [] then c
    else
      var cmd := cmds[0];
      var next := if IsStop(cmd) then AddStop(c, cmd.id, coords(cmd.description)) else c;
      StopCommandStep(c, cmd, coords);
      var r := ApplyStops(next, cmds[1..], coords);
      StopIdsCons(cmds);
      PrefixOfPrefix(c.stops, next.stops, r.stops);
      r
  }

  /** What one command of the first pass does to the catalogue. */
  lemma {:induction false} StopCommandStep(c: TransportCatalogue, cmd: CommandDescription, coords: string -> Coordinates)
    ensures var next := if IsStop(cmd) then AddStop(c, cmd.id, coords(cmd.description)) else c;
      && (Valid(c) ==> Valid(next))
      && (forall n :: n in next.stopIndex <==> n in c.stopIndex || (IsStop(cmd) && n == cmd.id))
      && |c.stops| <= |next.stops| && next.stops[..|c.stops|] == c.stops
      && next.buses == c.buses && next.busIndex == c.busIndex
      && next.stopToBus == c.stopToBus && next.distances == c.distances
  {
    var next := if IsStop(cmd) then AddStop(c, cmd.id, coords(cmd.description)) else c;
    if IsStop(cmd) && Valid(c) {
      AddStopKeepsValid(c, cmd.id, coords(cmd.description));
    }
    if IsStop(cmd) && cmd.id !in c.stopIndex {
      assert FindStop(next, cmd.id).Some?;
      forall n ensures n in next.stopIndex <==> n in c.stopIndex || n == cmd.id {
        if n != cmd.id {
          assert FindStop(next, n) == FindStop(c, n);
        }
      }
    }
  }

  /** A prefix of a prefix is a prefix. */
  lemma {:induction false} PrefixOfPrefix<T>(a: seq<T>, b: seq<T>, c: seq<T>)
    requires |a| <= |b| <= |c| && b[..|a|] == a && c[..|b|] == b
    ensures c[..|a|] == a
  {
    assert c[..|a|] == c[..|b|][..|a|];
  }

  /** The stop a Stop command registers keeps the coordinates of the first
      Stop command with that id: later repetitions are ignored. */
  lemma {:induction false} FirstStopWins(c: TransportCatalogue, cmds: seq<CommandDescription>,
                                         coords: string -> Coordinates, k: nat)
    requires Valid(c) && k < |cmds| && IsStop(cmds[k]) && cmds[k].id !in c.stopIndex
    requires forall j :: 0 <= j < k ==> !(IsStop(cmds[j]) && cmds[j].id == cmds[k].id)
    ensures var r := ApplyStops(c, cmds, coords);
      && FindStop(r, cmds[k].id).Some?
      && r.stops[FindStop(r, cmds[k].id).value] == Stop(cmds[k].id, coords(cmds[k].description))
    decreases k
  {
    var cmd := cmds[0];
    var name := cmds[k].id;
    if k == 0 {
      var next := AddStop(c, cmd.id, coords(cmd.description));
      AddStopKeepsValid(c, cmd.id, coords(cmd.description));
      StopStays(next, cmds[1..], coords, name);
    } else {
      var next := if IsStop(cmd) then AddStop(c, cmd.id, coords(cmd.description)) else c;
      if IsStop(cmd) {
        AddStopKeepsValid(c, cmd.id, coords(cmd.description));
        assert FindStop(next, name) == FindStop(c, name);
      }
      assert cmds[1..][k - 1] == cmds[k];
      FirstStopWins(next, cmds[1..], coords, k - 1);
    }
  }

  /** A registered stop is not touched by later Stop commands. */
  lemma {:induction false} StopStays(c: TransportCatalogue, cmds: seq<CommandDescription>,
                                     coords: string -> Coordinates, name: string)
    requires Valid(c) && name in c.stopIndex
    ensures var r := ApplyStops(c, cmds, coords);
      FindStop(r, name) == FindStop(c, name) && r.stops[c.stopIndex[name]] == c.stops[c.stopIndex[name]]
    decreases |cmds|
  {
    if cmds != [] {
      var cmd := cmds[0];
      var next := if IsStop(cmd) then AddStop(c, cmd.id, coords(cmd.description)) else c;
      if IsStop(cmd) {
        AddStopKeepsValid(c, cmd.id, coords(cmd.description));
        if cmd.id != name {
          assert FindStop(next, name) == FindStop(c, name);
        }
      }
      StopStays(next, cmds[1..], coords, name);
      assert next.stops[c.stopIndex[name]] == c.stops[c.stopIndex[name]];
    }
  }

  /** The bus a Bus command asks for, given the stops registered. */
  function RequestedBus(stopIndex: map<string, nat>, cmd: CommandDescription): Bus {
    var route := ParseRoute(cmd.description);
    Bus(cmd.id, KeptStops(stopIndex, route.0), route.1)
  }

  /** The buses the Bus commands ask for, in input order. */
  function BusesOf(stopIndex: map<string, nat>, cmds: seq<CommandDescription>): seq<Bus>
    decreases |cmds|
  {
    if cmds == [] then []
    else (if IsBus(cmds[0]) then [RequestedBus(stopIndex, cmds[0])] else []) + BusesOf(stopIndex, cmds[1..])
  }

  /** The second pass of ApplyCommands: every Bus command, in order, against
      an unchanging set of stops. */
  function ApplyBuses(c: TransportCatalogue, cmds: seq<CommandDescription>): (r: TransportCatalogue)
    ensures r.buses == c.buses + BusesOf(c.stopIndex, cmds)
    ensures r.stops == c.stops && r.stopIndex == c.stopIndex && r.distances == c.distances
    ensures Valid(c) ==> Valid(r)
    decreases |cmds|
  {
    if cmds == [] then c
    else
      var cmd := cmds[0];
      var route := ParseRoute(cmd.description);
      var next := if IsBus(cmd) then AddBus(c, cmd.id, route.0, route.1) else c;
      var head := if IsBus(cmd) then [RequestedBus(c.stopIndex, cmd)] else [];
      BusCommandStep(c, cmd);
      var rest := BusesOf(c.stopIndex, cmds[1..]);
      assert BusesOf(c.stopIndex, cmds) == head + rest;
      AppendAssoc(c.buses, head, rest);
      ApplyBuses(next, cmds[1..])
  }

  /** What one command of the second pass does to the catalogue. */
  lemma {:induction false} BusCommandStep(c: TransportCatalogue, cmd: CommandDescription)
    ensures var route := ParseRoute(cmd.description);
      var next := if IsBus(cmd) then AddBus(c, cmd.id, route.0, route.1) else c;
      && next.buses == c.buses + (if IsBus(cmd) then [RequestedBus(c.stopIndex, cmd)] else [])
      && next.stops == c.stops && next.stopIndex == c.stopIndex && next.distances == c.distances
      && (Valid(c) ==> Valid(next))
  {
    var route := ParseRoute(cmd.description);
    if IsBus(cmd) && Valid(c) {
      AddBusKeepsValid(c, cmd.id, route.0, route.1);
    }
  }

  /** ApplyCommands: all stops first, then all buses, so a route may name a
      stop that is declared further down the input. */
  function ApplyCommands(reader: Reader, c: TransportCatalogue, coords: string -> Coordinates)
    : (r: TransportCatalogue)
    ensures forall n :: n in r.stopIndex <==> n in c.stopIndex || n in StopIds(reader.commands)
    ensures r.buses == c.buses + BusesOf(ApplyStops(c, reader.commands, coords).stopIndex, reader.commands)
    ensures Valid(c) ==> Valid(r)
  {
    ApplyBuses(ApplyStops(c, reader.commands, coords), reader.commands)
  }

  /** Every Bus command contributes its bus. */
  lemma {:induction false} RequestedBusIn(stopIndex: map<string, nat>, cmds: seq<CommandDescription>, k: nat)
    requires k < |cmds| && IsBus(cmds[k])
    ensures RequestedBus(stopIndex, cmds[k]) in BusesOf(stopIndex, cmds)
    decreases k
  {
    if k > 0 {
      assert cmds[1..][k - 1] == cmds[k];
      RequestedBusIn(stopIndex, cmds[1..], k - 1);
    }
  }

  /** The bus of every Bus command ends up in the catalogue, and it keeps
      exactly the route names that were stops already or that some Stop
      command declares, wherever that command stands in the input. */
  lemma {:induction false} ApplyCommandsBus(reader: Reader, c: TransportCatalogue, coords: string -> Coordinates, k: nat)
    requires k < |reader.commands| && IsBus(reader.commands[k])
    ensures var stops := ApplyStops(c, reader.commands, coords);
      && RequestedBus(stops.stopIndex, reader.commands[k]) in ApplyCommands(reader, c, coords).buses
      && forall n :: n in KnownNames(stops.stopIndex, ParseRoute(reader.commands[k].description).0)
           <==> n in ParseRoute(reader.commands[k].description).0 && (n in c.stopIndex || n in StopIds(reader.commands))
  {
    var stops := ApplyStops(c, reader.commands, coords);
    RequestedBusIn(stops.stopIndex, reader.commands, k);
  }
}
