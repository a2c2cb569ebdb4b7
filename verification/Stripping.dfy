/** What a reader sees: StripMarkers (backend/internal/doc/blocks.go) and the plain
    preview of a render (backend/internal/doc/engine.go). */
module Stripping {
  import opened Lines
  import opened Blocks
  import opened Layout
  import opened Generated
  import opened FreshRenders

  const LEGACY := "<!-- wl:topology-edges:"
  const ARROW := "-->"

  // ---------------------------------------------- the legacy topology comment

  /** The last position from i on where the comment can end, or -1. */
  function LastArrow(line: string, i: nat): (r: int)
    requires i <= |line|
    ensures r == -1 || i <= r <= |line| - |ARROW|
    decreases |line| - i
  {
    if i == |line| then -1
    else
      var later := LastArrow(line, i + 1);
      if later >= 0 then later else if ARROW <= line[i..] then i else -1
  }

  function Blanks(s: string): (n: nat)
    ensures n <= |s|
  {
    if s != "" && (s[0] == ' ' || s[0] == '\t') then 1 + Blanks(s[1..]) else 0
  }

  predicate StartsComment(s: string) {
    LEGACY <= Split(s)[0] && LastArrow(Split(s)[0], |LEGACY|) >= 0
  }

  /** The comment at the start of a line and the blanks behind it. */
  function CommentLength(line: string): (n: nat)
    requires LEGACY <= line && LastArrow(line, |LEGACY|) >= 0
    ensures |LEGACY| < n <= |line|
  {
    var e := LastArrow(line, |LEGACY|) + |ARROW|;
    e + Blanks(line[e..])
  }

  /** The length of the topologyMarkerLine match at the start of s, or 0: the
      comment with a newline before it and one right behind it. */
  function MatchLength(s: string): (n: nat)
    ensures n <= |s|
    ensures n > 0 <==> StartsComment(s) || (s != "" && s[0] == '\n' && StartsComment(s[1..]))
  {
    FirstLineFits(s);
    if StartsComment(s) then CommentEnd(s)
    else if s != "" && s[0] == '\n' && StartsComment(s[1..]) then FirstLineFits(s[1..]); 1 + CommentEnd(s[1..])
    else 0
  }

  function CommentEnd(s: string): (n: nat)
    requires StartsComment(s)
    ensures 0 < n <= |s|
  {
    FirstLineFits(s);
    var n := CommentLength(Split(s)[0]);
    if n == |Split(s)[0]| && n < |s| then n + 1 else n
  }

  lemma FirstLineFits(s: string)
    ensures |Split(s)[0]| <= |s| && Split(s)[0] == s[..|Split(s)[0]|]
    ensures |Split(s)[0]| < |s| ==> s[|Split(s)[0]|] == '\n'
  {
    hide Split;
    SplitAt(s, 0);
    assert s[0..] == s;
  }

  /** topologyMarkerLine.ReplaceAllString(s, ""). */
  function StripTopology(s: string): string
    decreases |s|
  {
    if s == "" then ""
    else if MatchLength(s) > 0 then StripTopology(s[MatchLength(s)..])
    else [s[0]] + StripTopology(s[1..])
  }

  // -------------------------------------------------------- what readers see

  function Visible(segs: seq<Segment>): string {
    if segs == [] then ""
    else (match segs[0] case Text(t) => t case Gen(b) => b.body) + Visible(segs[1..])
  }

  method StripMarkers(content: string) returns (s: string)
    ensures s == Visible(Parse(StripTopology(content)))
  {
    s := "";
    var segs := ParseBlocks(StripTopology(content));
    for i := 0 to |segs|
      invariant Visible(segs) == s + Visible(segs[i..])
    {
      assert segs[i..][0] == segs[i] && segs[i..][1..] == segs[i + 1..];
      var piece := match segs[i] case Text(t) => t case Gen(b) => b.body;
      Assoc(s, piece, Visible(segs[i + 1..]));
      s := s + piece;
    }
    assert segs[|segs|..] == [];
  }

  /** The preview: bodies separated by a blank line, ending with a newline. */
  function PlainPreview(blocks: seq<Block>): string {
    JoinBodies(blocks) + "\n"
  }

  function JoinBodies(blocks: seq<Block>): string {
    if blocks == [] then ""
    else if |blocks| == 1 then blocks[0].body
    else blocks[0].body + "\n\n" + JoinBodies(blocks[1..])
  }

  lemma {:induction false} VisibleFresh(blocks: seq<Block>)
    requires blocks != []
    ensures Visible(FreshSegments(blocks)) == PlainPreview(blocks)
  {
    var s := FreshSegments(blocks);
    assert s[1..][1..] == s[2..] && s[1..][0] == s[1];
    if |blocks| == 1 {
      assert s[2..] == [];
      assert Visible(s[1..]) == "\n" + "";
    } else {
      VisibleFresh(blocks[1..]);
      assert s[2..] == FreshSegments(blocks[1..]);
      assert Visible(s) == blocks[0].body + ("\n\n" + (JoinBodies(blocks[1..]) + "\n"));
    }
  }

  // ----------------------------------------------------- counting occurrences

  function Count(tag: string, s: string): nat {
    if s == "" then 0 else (if tag <= s then 1 else 0) + Count(tag, s[1..])
  }

  ghost predicate InLine(tag: string) { tag != "" && '\n' !in tag }

  lemma PrefixBeforeNewline(tag: string, a: string, b: string)
    requires InLine(tag)
    ensures tag <= a + "\n" + b <==> tag <= a
  {
    var s := a + "\n" + b;
    assert s[|a|] == '\n';
  }

  /** Occurrences do not cross a newline. */
  lemma {:induction false} CountNewline(tag: string, a: string, b: string)
    requires InLine(tag)
    ensures Count(tag, a + "\n" + b) == Count(tag, a) + Count(tag, b)
  {
    var s := a + "\n" + b;
    PrefixBeforeNewline(tag, a, b);
    if a == "" {
      assert s[1..] == b;
    } else {
      CountNewline(tag, a[1..], b);
      assert s[1..] == a[1..] + "\n" + b;
    }
  }

  function CountIn(tag: string, ls: seq<string>): nat {
    if ls == [] then 0 else Count(tag, ls[0]) + CountIn(tag, ls[1..])
  }

  lemma {:induction false} CountInConcat(tag: string, a: seq<string>, b: seq<string>)
    ensures CountIn(tag, a + b) == CountIn(tag, a) + CountIn(tag, b)
  {
    if a == [] {
      assert a + b == b;
    } else {
      CountInConcat(tag, a[1..], b);
      assert (a + b)[1..] == a[1..] + b;
    }
  }

  lemma {:induction false} CountJoin(tag: string, ls: seq<string>)
    requires InLine(tag) && ls != []
    ensures Count(tag, Join(ls)) == CountIn(tag, ls)
  {
    if |ls| == 1 {
      assert ls[1..] == [];
    } else {
      CountJoin(tag, ls[1..]);
      CountNewline(tag, ls[0], Join(ls[1..]));
    }
  }

  lemma {:induction false} CountSuffix(tag: string, s: string, i: nat)
    requires i <= |s|
    ensures Count(tag, s[i..]) <= Count(tag, s)
  {
    if i > 0 {
      CountSuffix(tag, s[1..], i - 1);
      assert s[1..][i - 1..] == s[i..];
    } else {
      assert s[0..] == s;
    }
  }

  lemma {:induction false} CountWithout(tag: string, s: string)
    requires tag != "" && tag[0] !in s
    ensures Count(tag, s) == 0
  {
    if s != "" {
      CountWithout(tag, s[1..]);
      assert s[0] in s;
    }
  }

  // ------------------------------- markers account for what a reader does not see

  function PieceOf(i: Item): string { match i case Plain(l) => l case Marked(b) => b.body }

  function Pieces(items: seq<Item>): seq<string> {
    if items == [] then [] else [PieceOf(items[0])] + Pieces(items[1..])
  }

  lemma VisibleText(acc: string, rest: seq<Segment>)
    ensures Visible(TextIfAny(acc) + rest) == acc + Visible(rest)
  {
    if acc == "" {
      assert TextIfAny(acc) + rest == rest;
    } else {
      assert (TextIfAny(acc) + rest)[1..] == rest;
    }
  }

  /** A reader sees the lines and bodies, one below the other. */
  lemma {:induction false} VisibleJoin(acc: string, items: seq<Item>)
    requires items != []
    ensures Visible(SegmentsFrom(acc, items)) == acc + Join(Pieces(items))
    decreases |items|
  {
    var rest := items[1..];
    var nl := if |items| > 1 then "\n" else "";
    assert Pieces(items)[1..] == Pieces(rest);
    if rest == [] {
      assert Pieces(rest) == [];
      LastPiece(acc, items[0]);
      assert items == [items[0]];
    } else {
      match items[0]
      case Plain(l) =>
        VisibleJoin(acc + l + nl, rest);
        assert acc + l + nl + Join(Pieces(rest)) == acc + (l + "\n" + Join(Pieces(rest)));
      case Marked(b) =>
        VisibleJoin(nl, rest);
        var tail := SegmentsFrom(nl, rest);
        assert TextIfAny(acc) + [Gen(b)] + tail == TextIfAny(acc) + ([Gen(b)] + tail);
        VisibleText(acc, [Gen(b)] + tail);
        assert ([Gen(b)] + tail)[1..] == tail;
        assert acc + (b.body + ("\n" + Join(Pieces(rest)))) == acc + (b.body + "\n" + Join(Pieces(rest)));
    }
  }

  lemma LastPiece(acc: string, item: Item)
    ensures Visible(SegmentsFrom(acc, [item])) == acc + PieceOf(item)
  {
    assert [item][1..] == [];
    match item
    case Plain(l) =>
      assert SegmentsFrom(acc, [item]) == TextIfAny(acc + l + "");
      assert acc + l + "" == acc + l;
      VisibleText(acc + l, []);
      assert TextIfAny(acc + l) + [] == TextIfAny(acc + l);
    case Marked(b) =>
      assert SegmentsFrom(acc, [item]) == TextIfAny(acc) + [Gen(b)] + [];
      VisibleText(acc, [Gen(b)]);
      assert [Gen(b)][1..] == [];
      assert TextIfAny(acc) + [Gen(b)] + [] == TextIfAny(acc) + [Gen(b)];
      assert b.body + "" == b.body;
  }

  /** How often each pair of markers holds the tag: every marker starts with the
      only '<' it has. */
  function PerBlock(tag: string): nat {
    (if tag <= "<" then 1 else 0) + 1
  }

  ghost predicate MarkerTag(tag: string) { tag == "<" || tag == OPEN_TAG }

  lemma MarkersCount(tag: string, b: Block)
    requires MarkerTag(tag) && ValidMark(b)
    ensures Count(tag, OpenMarker(b.key, b.hash)) + Count(tag, CLOSE) == PerBlock(tag)
  {
    hide OpenMarker, Count, CLOSE;
    OpensWithTag(b);
    OneBracket(b);
    OneAtFront(tag, OpenMarker(b.key, b.hash));
    CloseHasOneBracket();
    OneAtFront(tag, CLOSE);
  }

  lemma OneAtFront(tag: string, s: string)
    requires tag != "" && s != "" && tag[0] !in s[1..]
    ensures Count(tag, s) == if tag <= s then 1 else 0
  {
    CountWithout(tag, s[1..]);
  }

  lemma OpensWithTag(b: Block)
    ensures OpenMarker(b.key, b.hash) != "" && OPEN_TAG <= OpenMarker(b.key, b.hash) && "<" <= OpenMarker(b.key, b.hash)
  {
    assert OPEN_TAG <= OPEN_PREFIX && "<" <= OPEN_PREFIX;
  }

  lemma CloseHasOneBracket()
    ensures CLOSE != "" && '<' !in CLOSE[1..] && "<" <= CLOSE && !(OPEN_TAG <= CLOSE)
  {
    assert OPEN_TAG[5] == 'w' && CLOSE[5] == '/';
  }

  lemma OneBracket(b: Block)
    requires ValidMark(b)
    ensures '<' !in OpenMarker(b.key, b.hash)[1..]
  {
    var open := OpenMarker(b.key, b.hash);
    var rest := OPEN_PREFIX[1..] + b.key + OPEN_MIDDLE + b.hash + OPEN_SUFFIX;
    assert open[1..] == rest;
    assert '<' !in OPEN_PREFIX[1..] && '<' !in OPEN_MIDDLE && '<' !in OPEN_SUFFIX;
    assert '<' !in b.key && '<' !in b.hash;
  }

  lemma CountBlockLines(tag: string, b: Block)
    requires MarkerTag(tag) && ValidMark(b)
    ensures CountIn(tag, BlockLines(b)) == Count(tag, b.body) + PerBlock(tag)
  {
    hide Split, OpenMarker, CLOSE;
    var open := OpenMarker(b.key, b.hash);
    CountInConcat(tag, [open], Split(b.body));
    CountInConcat(tag, [open] + Split(b.body), [CLOSE]);
    assert [open][1..] == [] && [CLOSE][1..] == [];
    CountJoin(tag, Split(b.body));
    JoinSplit(b.body);
    MarkersCount(tag, b);
  }

  lemma {:induction false} CountFlatten(tag: string, items: seq<Item>)
    requires MarkerTag(tag) && ValidMarks(items)
    ensures CountIn(tag, Flatten(items)) == CountIn(tag, Pieces(items)) + |MarkedBlocks(items)| * PerBlock(tag)
  {
    hide BlockLines, PerBlock, CountIn, Flatten, MarkedBlocks, Pieces;
    if items == [] {
      NothingFlat(tag);
    } else {
      CountFlatten(tag, items[1..]);
      CountItem(tag, items);
      var k := |MarkedBlocks(items[1..])|;
      assert (k + 1) * PerBlock(tag) == k * PerBlock(tag) + PerBlock(tag);
    }
  }

  lemma NothingFlat(tag: string)
    ensures CountIn(tag, Flatten([])) == 0 && CountIn(tag, Pieces([])) == 0 && |MarkedBlocks([])| == 0
  {
  }

  lemma CountItem(tag: string, items: seq<Item>)
    requires MarkerTag(tag) && ValidMarks(items) && items != []
    ensures var rest, marked := items[1..], items[0].Marked?;
            && |MarkedBlocks(items)| == |MarkedBlocks(rest)| + (if marked then 1 else 0)
            && CountIn(tag, Pieces(items)) == Count(tag, PieceOf(items[0])) + CountIn(tag, Pieces(rest))
            && CountIn(tag, Flatten(items)) == Count(tag, PieceOf(items[0])) + (if marked then PerBlock(tag) else 0) + CountIn(tag, Flatten(rest))
  {
    hide BlockLines, PerBlock, Count;
    assert Pieces(items)[1..] == Pieces(items[1..]);
    match items[0]
    case Plain(l) =>
      CountInConcat(tag, [l], Flatten(items[1..]));
      assert [l][1..] == [];
    case Marked(b) =>
      CountInConcat(tag, BlockLines(b), Flatten(items[1..]));
      CountBlockLines(tag, b);
  }

  /** Taking the markers away removes exactly their own brackets and tags. */
  lemma CountVisible(tag: string, content: string)
    requires MarkerTag(tag)
    ensures Count(tag, content) == Count(tag, Visible(Parse(content))) + |BlocksOf(Parse(content))| * PerBlock(tag)
  {
    hide Split, ParseLines, SegmentsFrom, Visible, PerBlock, Count, Flatten, MarkedBlocks;
    var ls := Split(content);
    var items := ParseLines(ls);
    SplitHasNoNewlines(content);
    FlattenParseLines(ls);
    ParseLinesMarks(ls);
    JoinSplit(content);
    CountJoin(tag, ls);
    CountFlatten(tag, items);
    VisibleJoin("", items);
    CountJoin(tag, Pieces(items));
    BlocksOfSegmentsFrom("", items);
    assert "" + Join(Pieces(items)) == Join(Pieces(items));
  }

  // -------------------------------------------- what taking comments out removes

  /** No line holds both the start of a comment and an opening tag. */
  ghost predicate Apart(s: string) {
    forall l :: l in Split(s) ==> Count(LEGACY, l) == 0 || Count(OPEN_TAG, l) == 0
  }

  lemma ApartNewline(a: string, b: string)
    ensures Apart(a + "\n" + b) <==> Apart(a) && Apart(b)
  {
    hide Split, Count;
    SplitConcat(a, b);
  }

  lemma ApartTail(s: string)
    requires s != "" && Apart(s)
    ensures Apart(s[1..])
  {
    hide Count;
    var rest := Split(s[1..]);
    forall l | l in rest
      ensures Count(LEGACY, l) == 0 || Count(OPEN_TAG, l) == 0
    {
      var k :| 0 <= k < |rest| && rest[k] == l;
      if s[0] == '\n' {
        assert Split(s)[k + 1] == l;
      } else if k > 0 {
        assert Split(s)[k] == l;
      } else {
        var first := Split(s)[0];
        assert first == [s[0]] + l && first[1..] == l;
        CountSuffix(LEGACY, first, 1);
        CountSuffix(OPEN_TAG, first, 1);
      }
    }
  }

  /** A text is its first line, alone or with a newline and the rest. */
  lemma FirstLine(s: string) returns (rest: string)
    ensures if |Split(s)[0]| == |s| then s == Split(s)[0] else s == Split(s)[0] + "\n" + rest
  {
    hide Split;
    FirstLineFits(s);
    var n := |Split(s)[0]|;
    if n < |s| {
      rest := s[n + 1..];
      assert s == s[..n] + "\n" + rest;
    } else {
      rest := "";
      assert s == s[..n];
    }
  }

  lemma LegacyHasBracket(line: string)
    requires LEGACY <= line
    ensures Count(LEGACY, line) > 0 && Count("<", line) > 0
    ensures forall i :: 0 < i <= |line| ==> Count("<", line[i..]) < Count("<", line)
  {
    assert "<" <= line;
    forall i | 0 < i <= |line|
      ensures Count("<", line[i..]) < Count("<", line)
    {
      CountSuffix("<", line[1..], i - 1);
      assert line[1..][i - 1..] == line[i..];
    }
  }

  lemma {:induction false} ApartSuffix(s: string, i: nat)
    requires i <= |s| && Apart(s)
    ensures Apart(s[i..])
  {
    hide Apart;
    if i == 0 {
      assert s[0..] == s;
    } else {
      ApartTail(s);
      ApartSuffix(s[1..], i - 1);
      assert s[1..][i - 1..] == s[i..];
    }
  }

  lemma FirstLineIsApart(s: string)
    requires Apart(s) && Count(LEGACY, Split(s)[0]) > 0
    ensures Count(OPEN_TAG, Split(s)[0]) == 0
  {
    hide Split, Count;
  }

  /** Taking out a comment takes a bracket and no opening tag. */
  lemma CommentCounts(s: string)
    requires StartsComment(s)
    ensures Count("<", s[CommentEnd(s)..]) < Count("<", s)
    ensures Apart(s) ==> Count(OPEN_TAG, s[CommentEnd(s)..]) == Count(OPEN_TAG, s)
  {
    hide Split, Count, Apart, CommentLength;
    var line := Split(s)[0];
    var rest := FirstLine(s);
    var n, e := CommentLength(line), CommentEnd(s);
    LegacyHasBracket(line);
    CountSuffix(OPEN_TAG, line, n);
    if Apart(s) {
      FirstLineIsApart(s);
    }
    if |line| == |s| {
      assert s[e..] == line[n..];
    } else {
      CountNewline("<", line, rest);
      CountNewline(OPEN_TAG, line, rest);
      if n == |line| {
        assert s[e..] == rest;
      } else {
        assert s[e..] == line[n..] + "\n" + rest;
        CountNewline("<", line[n..], rest);
        CountNewline(OPEN_TAG, line[n..], rest);
      }
    }
  }

  lemma MatchCounts(s: string)
    requires MatchLength(s) > 0
    ensures Count("<", s[MatchLength(s)..]) < Count("<", s)
    ensures Apart(s) ==> Count(OPEN_TAG, s[MatchLength(s)..]) == Count(OPEN_TAG, s)
  {
    hide StartsComment, CommentEnd, Apart;
    if StartsComment(s) {
      CommentCounts(s);
    } else {
      CommentCounts(s[1..]);
      assert s[1..][CommentEnd(s[1..])..] == s[MatchLength(s)..];
      if Apart(s) {
        ApartTail(s);
      }
    }
  }

  /** A word with neither bracket nor newline is copied. */
  lemma {:induction false} CopiesWord(w: string, s: string)
    requires w <= s && '<' !in w && '\n' !in w
    ensures w <= StripTopology(s)
  {
    if w != "" {
      assert s[0] == w[0] && w[0] in w;
      NotAComment(s);
      CopiesWord(w[1..], s[1..]);
      assert w == [w[0]] + w[1..];
    }
  }

  lemma NotAComment(s: string)
    requires s != "" && s[0] != '<' && s[0] != '\n'
    ensures MatchLength(s) == 0
  {
    hide StartsComment;
    CommentIsBracketed(s);
  }

  lemma CommentIsBracketed(s: string)
    ensures StartsComment(s) ==> LEGACY <= s
  {
    hide Split;
    FirstLineFits(s);
  }

  /** Stripping removes a bracket if it removes anything. */
  lemma {:induction false} StripTakesBrackets(s: string)
    ensures Count("<", StripTopology(s)) <= Count("<", s)
    ensures StripTopology(s) != s ==> Count("<", StripTopology(s)) < Count("<", s)
    decreases |s|
  {
    hide MatchLength;
    if s != "" {
      var n := MatchLength(s);
      if n > 0 {
        MatchCounts(s);
        StripTakesBrackets(s[n..]);
      } else {
        StripTakesBrackets(s[1..]);
        var t := StripTopology(s[1..]);
        assert ([s[0]] + t)[1..] == t;
        assert s == [s[0]] + s[1..];
      }
    }
  }

  /** Stripping never removes an opening tag. */
  lemma {:induction false} StripLeavesTags(s: string)
    requires Apart(s)
    ensures Count(OPEN_TAG, StripTopology(s)) >= Count(OPEN_TAG, s)
    decreases |s|
  {
    hide Apart, MatchLength;
    if s != "" {
      var n := MatchLength(s);
      if n > 0 {
        MatchCounts(s);
        ApartSuffix(s, n);
        StripLeavesTags(s[n..]);
      } else {
        ApartTail(s);
        StripLeavesTags(s[1..]);
        var t := StripTopology(s[1..]);
        assert ([s[0]] + t)[1..] == t;
        if OPEN_TAG <= s {
          CopiesWord(OPEN_TAG[1..], s[1..]);
          assert OPEN_TAG == [s[0]] + OPEN_TAG[1..];
        }
      }
    }
  }

  // ------------------------------------------------------ comments in a render

  predicate HasComment(s: string) {
    s != "" && (StartsComment(s) || HasComment(s[1..]))
  }

  /** Stripping changes nothing exactly when there is no comment. */
  lemma {:induction false} StripsNothing(s: string)
    ensures StripTopology(s) == s <==> !HasComment(s)
    decreases |s|
  {
    hide StartsComment, Count;
    if s != "" {
      var n := MatchLength(s);
      if n > 0 {
        MatchCounts(s);
        StripTakesBrackets(s[n..]);
        if !StartsComment(s) {
          assert HasComment(s[1..]);
        }
      } else {
        StripsNothing(s[1..]);
        var t := StripTopology(s[1..]);
        assert ([s[0]] + t)[1..] == t && s == [s[0]] + s[1..];
      }
    }
  }

  /** A comment lies within a line. */
  lemma {:induction false} CommentNewline(a: string, b: string)
    ensures HasComment(a + "\n" + b) <==> HasComment(a) || HasComment(b)
  {
    hide Split, LastArrow;
    var s := a + "\n" + b;
    SplitConcat(a, b);
    assert Split(s)[0] == Split(a)[0];
    if a == "" {
      assert s[1..] == b;
      SplitEmpty();
    } else {
      CommentNewline(a[1..], b);
      assert s[1..] == a[1..] + "\n" + b;
    }
  }

  lemma {:induction false} NoBracketNoComment(s: string)
    requires '<' !in s
    ensures !HasComment(s)
  {
    hide StartsComment;
    if s != "" {
      NoBracketNoComment(s[1..]);
      CommentIsBracketed(s);
      assert s[0] in s;
    }
  }

  /** A line whose only bracket starts it, but not a comment. */
  lemma NotCommented(line: string)
    requires line != "" && '\n' !in line && '<' !in line[1..] && !(LEGACY <= line)
    ensures !HasComment(line) && Apart(line)
  {
    hide StartsComment, Count;
    CommentIsBracketed(line);
    NoBracketNoComment(line[1..]);
    OneAtFront(LEGACY, line);
    SplitSingle(line);
  }

  lemma OpenerIsNotLegacy(b: Block)
    ensures !(LEGACY <= OpenMarker(b.key, b.hash))
  {
    hide OpenMarker;
    OpensWithTag(b);
    var open := OpenMarker(b.key, b.hash);
    assert LEGACY[8] == 't' && OPEN_TAG[8] == 'g';
    assert open[8] == OPEN_TAG[8];
  }

  lemma CloserIsNotLegacy()
    ensures !(LEGACY <= CLOSE)
  {
    assert LEGACY[5] == 'w' && CLOSE[5] == '/';
  }

  lemma MarkersHaveNoComment(b: Block)
    requires ValidMark(b)
    ensures !HasComment(OpenMarker(b.key, b.hash)) && !HasComment(CLOSE)
    ensures Apart(OpenMarker(b.key, b.hash)) && Apart(CLOSE)
  {
    hide OpenMarker, CLOSE, HasComment, Apart, LEGACY;
    OpensWithTag(b);
    OneBracket(b);
    MatchOpenMarker(b.key, b.hash);
    OpenerIsNotLegacy(b);
    NotCommented(OpenMarker(b.key, b.hash));
    CloseHasNoNewline();
    CloseHasOneBracket();
    CloserIsNotLegacy();
    NotCommented(CLOSE);
  }

  lemma CommentInBlock(b: Block)
    requires ValidMark(b) && Count(OPEN_TAG, b.body) == 0
    ensures HasComment(RenderBlock(b)) <==> HasComment(b.body)
    ensures Apart(RenderBlock(b))
  {
    hide HasComment, Apart, OpenMarker, CLOSE, Count;
    var open := OpenMarker(b.key, b.hash);
    MarkersHaveNoComment(b);
    BodyIsApart(b.body);
    CommentNewline(open, b.body);
    ApartNewline(open, b.body);
    CommentNewline(open + "\n" + b.body, CLOSE);
    ApartNewline(open + "\n" + b.body, CLOSE);
  }

  lemma BodyIsApart(body: string)
    requires Count(OPEN_TAG, body) == 0
    ensures Apart(body)
  {
    hide Split, Count;
    JoinSplit(body);
    CountJoin(OPEN_TAG, Split(body));
    forall l | l in Split(body) ensures Count(OPEN_TAG, l) == 0 {
      CountMember(OPEN_TAG, Split(body), l);
    }
  }

  lemma {:induction false} CountMember(tag: string, ls: seq<string>, l: string)
    requires l in ls
    ensures Count(tag, l) <= CountIn(tag, ls)
  {
    hide Count;
    if ls[0] != l {
      assert l in ls[1..];
      CountMember(tag, ls[1..], l);
    }
  }

  ghost predicate BodiesTagFree(blocks: seq<Block>) {
    forall i :: 0 <= i < |blocks| ==> ValidMark(blocks[i]) && Count(OPEN_TAG, blocks[i].body) == 0
  }

  lemma RenderOneFresh(b: Block)
    ensures Render(FreshSegments([b])) == RenderBlock(b) + "\n" + ""
  {
    hide RenderBlock;
    var s := FreshSegments([b]);
    assert s == [Gen(b), Text("\n")] && s[1..] == [Text("\n")] && s[1..][1..] == [];
    assert Render(s[1..]) == "\n" + "";
  }

  lemma RenderMoreFresh(blocks: seq<Block>)
    requires |blocks| > 1
    ensures Render(FreshSegments(blocks)) == RenderBlock(blocks[0]) + "\n" + ("" + "\n" + Render(FreshSegments(blocks[1..])))
  {
    hide RenderBlock, FreshSegments, Render;
    var rest := FreshSegments(blocks[1..]);
    FreshHead(blocks);
    RenderConcat([Gen(blocks[0])], [Text("\n\n")] + rest);
    RenderConcat([Text("\n\n")], rest);
    RenderSingle(Gen(blocks[0]));
    RenderSingle(Text("\n\n"));
    BlankLine(RenderBlock(blocks[0]), Render(rest));
  }

  lemma FreshHead(blocks: seq<Block>)
    requires |blocks| > 1
    ensures FreshSegments(blocks) == [Gen(blocks[0])] + ([Text("\n\n")] + FreshSegments(blocks[1..]))
  {
  }

  lemma RenderSingle(s: Segment)
    ensures Render([s]) == RenderSegment(s)
  {
    assert [s][1..] == [];
    assert Render([s]) == RenderSegment(s) + "";
  }

  lemma BlankLine(a: string, b: string)
    ensures a + ("\n\n" + b) == a + "\n" + ("" + "\n" + b)
  {
  }

  /** A fresh render holds a comment exactly when one of its bodies does. */
  lemma {:induction false} CommentInFresh(blocks: seq<Block>)
    requires BodiesTagFree(blocks)
    ensures HasComment(Render(FreshSegments(blocks))) <==> exists i :: 0 <= i < |blocks| && HasComment(blocks[i].body)
    ensures Apart(Render(FreshSegments(blocks)))
  {
    hide HasComment, Apart, RenderBlock, Count, FreshSegments, Render;
    EmptyIsClean();
    if blocks == [] {
      NothingFresh();
    } else {
      var b, rest := blocks[0], blocks[1..];
      CommentInBlock(b);
      if |blocks| == 1 {
        assert blocks == [b];
        RenderOneFresh(b);
        CommentNewline(RenderBlock(b), "");
        ApartNewline(RenderBlock(b), "");
      } else {
        CommentInFresh(rest);
        RenderMoreFresh(blocks);
        var r := Render(FreshSegments(rest));
        CommentNewline("", r);
        ApartNewline("", r);
        CommentNewline(RenderBlock(b), "" + "\n" + r);
        ApartNewline(RenderBlock(b), "" + "\n" + r);
        forall i | 0 <= i < |rest| ensures rest[i] == blocks[i + 1] {
        }
        if i :| 0 <= i < |blocks| && HasComment(blocks[i].body) && i > 0 {
          assert rest[i - 1] == blocks[i];
        }
        if i :| 0 <= i < |rest| && HasComment(rest[i].body) {
          assert HasComment(blocks[i + 1].body);
        }
      }
    }
  }

  lemma EmptyIsClean()
    ensures !HasComment("") && Apart("")
  {
    SplitEmpty();
  }

  lemma NothingFresh()
    ensures Render(FreshSegments([])) == ""
  {
  }

  lemma {:induction false} TagFreeCount(s: string)
    requires TagFree(s)
    ensures Count(OPEN_TAG, s) == 0
  {
    if s != "" {
      assert s[0..] == s;
      forall i | 0 <= i <= |s[1..]| ensures !(OPEN_TAG <= s[1..][i..]) && !(CLOSE_TAG <= s[1..][i..]) {
        assert s[1..][i..] == s[i + 1..];
      }
      TagFreeCount(s[1..]);
    }
  }

  /** If stripping a render gives the preview, it took no comment out: each comment
      costs a bracket, and each marker that no longer counts shows its tag. */
  lemma NoCommentWasTaken(blocks: seq<Block>)
    requires blocks != [] && ValidDoc(blocks) && BodiesTagFree(blocks)
    requires Visible(Parse(StripTopology(Render(FreshSegments(blocks))))) == PlainPreview(blocks)
    ensures StripTopology(Render(FreshSegments(blocks))) == Render(FreshSegments(blocks))
  {
    hide Parse, Visible, Count, StripTopology, FreshSegments, Render, PlainPreview, Apart, HasComment;
    var r := Render(FreshSegments(blocks));
    var s := StripTopology(r);
    FreshParses(blocks);
    VisibleFresh(blocks);
    CommentInFresh(blocks);
    StripTakesBrackets(r);
    StripLeavesTags(r);
    CountVisible("<", r);
    CountVisible("<", s);
    CountVisible(OPEN_TAG, r);
    CountVisible(OPEN_TAG, s);
  }

  /** Stripping the markers of a stored render gives the preview exactly when the
      render is not empty and none of its bodies holds a legacy comment. */
  lemma StrippedRenderIsPreview(blocks: seq<Block>)
    requires ValidDoc(blocks) && forall i :: 0 <= i < |blocks| ==> TagFree(blocks[i].body)
    ensures Visible(Parse(StripTopology(Render(FreshSegments(blocks))))) == PlainPreview(blocks) <==>
            blocks != [] && forall i :: 0 <= i < |blocks| ==> !HasComment(blocks[i].body)
  {
    hide Parse, Visible, Count, StripTopology, FreshSegments, Render, PlainPreview, Apart, HasComment, TagFree;
    var r := Render(FreshSegments(blocks));
    forall i | 0 <= i < |blocks| ensures ValidMark(blocks[i]) && Count(OPEN_TAG, blocks[i].body) == 0 {
      TagFreeCount(blocks[i].body);
    }
    if blocks == [] {
      EmptyPreview();
    } else {
      FreshParses(blocks);
      VisibleFresh(blocks);
      CommentInFresh(blocks);
      StripsNothing(r);
      if Visible(Parse(StripTopology(r))) == PlainPreview(blocks) {
        NoCommentWasTaken(blocks);
      }
    }
  }

  lemma EmptyPreview()
    ensures Visible(Parse(StripTopology(Render(FreshSegments([]))))) != PlainPreview([])
  {
    ParseOfEmpty();
  }

  // --------------------------------------------------------- exactly what goes

  ghost predicate NoArrow(s: string) {
    forall i :: 0 <= i <= |s| ==> !(ARROW <= s[i..])
  }

  ghost predicate AllBlank(s: string) {
    forall i :: 0 <= i < |s| ==> s[i] == ' ' || s[i] == '\t'
  }

  lemma {:induction false} NoLaterArrow(a: string, b: string, i: nat)
    requires NoArrow(b) && |a| < i <= |a + ARROW + b|
    ensures LastArrow(a + ARROW + b, i) == -1
    decreases |a + ARROW + b| - i
  {
    var line := a + ARROW + b;
    if i < |line| {
      NoLaterArrow(a, b, i + 1);
      if i >= |a| + 3 {
        assert line[i..] == b[i - |a| - 3..];
      } else {
        assert line[|a| + 2] == '>';
      }
    }
  }

  /** The comment ends at the last arrow of its line. */
  lemma {:induction false} ArrowFound(a: string, b: string, i: nat)
    requires NoArrow(b) && i <= |a|
    ensures LastArrow(a + ARROW + b, i) == |a|
    decreases |a| - i
  {
    var line := a + ARROW + b;
    if i < |a| {
      ArrowFound(a, b, i + 1);
    } else {
      NoLaterArrow(a, b, i + 1);
      assert line[i..] == ARROW + b;
    }
  }

  lemma {:induction false} BlanksCounted(blanks: string, tail: string)
    requires AllBlank(blanks) && (tail == "" || (tail[0] != ' ' && tail[0] != '\t'))
    ensures Blanks(blanks + tail) == |blanks|
  {
    if blanks == "" {
      assert blanks + tail == tail;
    } else {
      BlanksCounted(blanks[1..], tail);
      assert (blanks + tail)[1..] == blanks[1..] + tail;
    }
  }

  /** A legacy comment with the blanks behind it. */
  function Comment(mid: string, blanks: string): string { LEGACY + mid + ARROW + blanks }

  /** What may follow it on its line: nothing, or text that neither continues the
      blanks nor holds another arrow. */
  ghost predicate Tail(tail: string) {
    && '\n' !in tail && NoArrow(tail)
    && (tail == "" || (tail[0] != ' ' && tail[0] != '\t'))
  }

  lemma CommentMeasured(mid: string, blanks: string, tail: string)
    requires '\n' !in mid && AllBlank(blanks) && Tail(tail)
    ensures var line := Comment(mid, blanks) + tail;
      && '\n' !in line && LEGACY <= line && LastArrow(line, |LEGACY|) >= 0
      && CommentLength(line) == |Comment(mid, blanks)|
  {
    hide LEGACY, LastArrow, Blanks;
    var a := LEGACY + mid;
    var line := Comment(mid, blanks) + tail;
    assert line == a + ARROW + (blanks + tail);
    LegacyIsOneLine();
    NoArrowBehind(blanks, tail);
    ArrowFound(a, blanks + tail, |LEGACY|);
    assert line[|a| + |ARROW|..] == blanks + tail;
    BlanksCounted(blanks, tail);
  }

  lemma LegacyIsOneLine()
    ensures '\n' !in LEGACY && '\n' !in ARROW
  {
  }

  lemma NoArrowBehind(blanks: string, tail: string)
    requires AllBlank(blanks) && NoArrow(tail)
    ensures NoArrow(blanks + tail)
  {
    var s := blanks + tail;
    forall i | 0 <= i <= |s| ensures !(ARROW <= s[i..]) {
      if i >= |blanks| {
        assert s[i..] == tail[i - |blanks|..];
      } else {
        assert s[i..][0] == blanks[i];
      }
    }
  }

  lemma CommentTaken(mid: string, blanks: string, tail: string, post: string)
    requires '\n' !in mid && AllBlank(blanks) && Tail(tail)
    ensures var s := Comment(mid, blanks) + tail + "\n" + post;
      && StartsComment(s) && s[CommentEnd(s)..] == if tail == "" then post else tail + "\n" + post
  {
    hide LEGACY, LastArrow, CommentLength, Split;
    var line := Comment(mid, blanks) + tail;
    var s := line + "\n" + post;
    CommentMeasured(mid, blanks, tail);
    SplitSingle(line);
    SplitConcat(line, post);
    assert Split(s)[0] == line;
    if tail == "" {
      assert line == Comment(mid, blanks);
      assert s[|line| + 1..] == post;
    } else {
      assert s[|Comment(mid, blanks)|..] == tail + "\n" + post;
    }
  }

  /** Text without a comment is copied, up to a line that follows it. */
  lemma {:induction false} CopiesText(pre: string, rest: string)
    requires !HasComment(pre) && rest != "" && rest[0] == '\n'
    ensures StripTopology(pre + rest) == pre + StripTopology(rest)
  {
    hide StartsComment, CommentEnd;
    if pre == "" {
      assert pre + rest == rest;
    } else {
      var s := pre + rest;
      assert s[1..] == pre[1..] + rest && s[0] == pre[0];
      SameStart(pre, rest);
      SameStart(pre[1..], rest);
      StartIsComment(pre[1..]);
      CopiesText(pre[1..], rest);
      assert [s[0]] + (pre[1..] + StripTopology(rest)) == pre + StripTopology(rest);
    }
  }

  lemma SameStart(pre: string, rest: string)
    requires rest != "" && rest[0] == '\n'
    ensures StartsComment(pre + rest) <==> StartsComment(pre)
  {
    hide Split, LastArrow;
    assert pre + rest == pre + "\n" + rest[1..];
    SplitConcat(pre, rest[1..]);
  }

  lemma StartIsComment(s: string)
    ensures StartsComment(s) ==> HasComment(s)
  {
    SplitEmpty();
  }

  /** A comment on a line goes with its blanks, the newline before it and the one
      right behind it; the text before stays, and so does what follows on its line. */
  lemma StripsExactly(pre: string, mid: string, blanks: string, tail: string, post: string)
    requires !HasComment(pre) && '\n' !in mid && AllBlank(blanks) && Tail(tail)
    ensures StripTopology(pre + ("\n" + (Comment(mid, blanks) + tail + "\n" + post)))
            == pre + StripTopology(if tail == "" then post else tail + "\n" + post)
    ensures StripTopology(Comment(mid, blanks) + tail + "\n" + post)
            == StripTopology(if tail == "" then post else tail + "\n" + post)
  {
    hide StartsComment, CommentEnd, HasComment, Comment;
    var s := Comment(mid, blanks) + tail + "\n" + post;
    CommentTaken(mid, blanks, tail, post);
    CopiesText(pre, "\n" + s);
    var t := "\n" + s;
    assert t[1..] == s;
    NewlineStartsNone(s);
    assert t[1 + CommentEnd(s)..] == s[CommentEnd(s)..];
  }

  lemma NewlineStartsNone(s: string)
    ensures !StartsComment("\n" + s)
  {
    CommentIsBracketed("\n" + s);
  }
}
