/** Generated-block markers: backend/internal/doc/blocks.go.

    Content that sync owns sits between an opening marker line, which carries a
    key and the hash of the body as last generated, and a closing marker line.
    Everything else is human-owned text. The hash is a parameter, so every
    statement holds whatever hash function is used. */
module Blocks {
  import opened Lines

  datatype Option<+T> = None | Some(value: T)

  const OPEN_PREFIX := "<!-- wl:gen key=\""
  const OPEN_MIDDLE := "\" h=\""
  const OPEN_SUFFIX := "\" -->"
  const CLOSE := "<!-- /wl:gen -->"

  predicate KeyChar(c: char) {
    'A' <= c <= 'Z' || 'a' <= c <= 'z' || '0' <= c <= '9' || c == '.' || c == '_' || c == '-'
  }

  predicate HexChar(c: char) { '0' <= c <= '9' || 'a' <= c <= 'f' }

  predicate ValidKey(key: string) { |key| > 0 && forall i :: 0 <= i < |key| ==> KeyChar(key[i]) }

  predicate ValidHash(h: string) { |h| == 12 && forall i :: 0 <= i < |h| ==> HexChar(h[i]) }

  /** Any function from bodies to 12 hex characters. */
  type Hasher = h: string -> string | forall s: string :: ValidHash(h(s))
    witness (s: string) => "000000000000"

  datatype Block = Block(key: string, hash: string, body: string) {
    predicate Edited(hash: Hasher) { hash(body) != this.hash }
  }

  datatype Segment = Text(text: string) | Gen(block: Block)

  // ---------------------------------------------------------------- markers

  function OpenMarker(key: string, hash: string): string {
    OPEN_PREFIX + key + OPEN_MIDDLE + hash + OPEN_SUFFIX
  }

  /** The key and hash captured by the opening-marker pattern, if the whole line matches it. */
  function MatchOpen(line: string): (r: Option<(string, string)>)
    ensures r.Some? ==> ValidKey(r.value.0) && ValidHash(r.value.1) && line == OpenMarker(r.value.0, r.value.1)
  {
    if |line| < 40 then None
    else
      var key, h := line[17..|line| - 22], line[|line| - 17..|line| - 5];
      if ValidKey(key) && ValidHash(h) && line == OpenMarker(key, h) then Some((key, h)) else None
  }

  predicate IsOpen(line: string) { MatchOpen(line).Some? }

  /** Every marker built from a valid key and hash is recognised, with exactly that key and hash. */
  lemma MatchOpenMarker(key: string, h: string)
    requires ValidKey(key) && ValidHash(h)
    ensures MatchOpen(OpenMarker(key, h)) == Some((key, h))
    ensures '\n' !in OpenMarker(key, h) && OpenMarker(key, h) != CLOSE
  {
    var line := OpenMarker(key, h);
    assert |line| == |key| + 39;
    assert line[17..|line| - 22] == key;
    assert line[|line| - 17..|line| - 5] == h;
    assert line[5] == OPEN_PREFIX[5] != CLOSE[5];
    forall i | 0 <= i < |line| ensures line[i] != '\n' {
      if 17 <= i < 17 + |key| {
        assert line[i] == key[i - 17];
      } else if 22 + |key| <= i < 34 + |key| {
        assert line[i] == h[i - 22 - |key|];
      }
    }
  }

  // ------------------------------------------------- lines to marked regions

  /** A document line by line: a plain line, or a block with its two marker lines. */
  datatype Item = Plain(line: string) | Marked(block: Block)

  /** The closing line for an opener whose following lines are ls: the first
      closing marker after at least one body line, with no opener before it. */
  function FindClose(ls: seq<string>, j: nat): (r: Option<nat>)
    requires j <= |ls|
    ensures r.Some? ==> j <= r.value < |ls| && r.value > 0 && ls[r.value] == CLOSE
    decreases |ls| - j
  {
    if j == |ls| then None
    else if ls[j] == CLOSE && j > 0 then Some(j)
    else if IsOpen(ls[j]) then None
    else FindClose(ls, j + 1)
  }

  function ParseLines(ls: seq<string>): seq<Item>
  {
    if ls == [] then []
    else
      var m, rest := MatchOpen(ls[0]), ls[1..];
      if m.Some? && FindClose(rest, 0).Some? then
        var j := FindClose(rest, 0).value;
        [Marked(Block(m.value.0, m.value.1, Join(rest[..j])))] + ParseLines(rest[j + 1..])
      else
        [Plain(ls[0])] + ParseLines(rest)
  }

  function BlockLines(b: Block): seq<string> {
    [OpenMarker(b.key, b.hash)] + Split(b.body) + [CLOSE]
  }

  function Flatten(items: seq<Item>): seq<string> {
    if items == [] then []
    else (match items[0] case Plain(l) => [l] case Marked(b) => BlockLines(b)) + Flatten(items[1..])
  }

  lemma FlattenMarked(b: Block, rest: seq<Item>, ls: seq<string>, j: nat)
    requires 1 <= j + 1 < |ls| && NoNewlines(ls) && j > 0
    requires ls[0] == OpenMarker(b.key, b.hash) && b.body == Join(ls[1..j + 1]) && ls[j + 1] == CLOSE
    requires Flatten(rest) == ls[j + 2..]
    ensures Flatten([Marked(b)] + rest) == ls
  {
    hide OpenMarker, CLOSE, Split, Join;
    SplitJoin(ls[1..j + 1]);
    var items := [Marked(b)] + rest;
    assert items[1..] == rest;
    FourParts(ls, j);
  }

  lemma FourParts(ls: seq<string>, j: nat)
    requires j + 1 < |ls|
    ensures [ls[0]] + ls[1..j + 1] + [ls[j + 1]] + ls[j + 2..] == ls
  {
  }

  lemma FlattenPlain(l: string, rest: seq<Item>)
    ensures Flatten([Plain(l)] + rest) == [l] + Flatten(rest)
  {
    hide BlockLines;
    assert ([Plain(l)] + rest)[1..] == rest;
  }

  /** Parsing loses no line. */
  lemma {:induction false} FlattenParseLines(ls: seq<string>)
    requires NoNewlines(ls)
    ensures Flatten(ParseLines(ls)) == ls
    decreases |ls|
  {
    hide MatchOpen, OpenMarker, CLOSE, Split, Join, FindClose, Flatten;
    if ls == [] {
      FlattenNothing();
    } else {
      var m, rest := MatchOpen(ls[0]), ls[1..];
      if m.Some? && FindClose(rest, 0).Some? {
        var j := FindClose(rest, 0).value;
        assert rest[..j] == ls[1..j + 1] && rest[j + 1..] == ls[j + 2..] && rest[j] == ls[j + 1];
        FlattenParseLines(rest[j + 1..]);
        FlattenMarked(Block(m.value.0, m.value.1, Join(rest[..j])), ParseLines(rest[j + 1..]), ls, j);
      } else {
        FlattenParseLines(rest);
        FlattenPlain(ls[0], ParseLines(rest));
        assert [ls[0]] + rest == ls;
      }
    }
  }

  lemma FlattenNothing()
    ensures Flatten([]) == []
  {
  }

  // ------------------------------------------------------ items to segments

  /** Segments of the items, where acc is the text already read since the last block. */
  function SegmentsFrom(acc: string, items: seq<Item>): seq<Segment>
    decreases |items|
  {
    if items == [] then TextIfAny(acc)
    else
      var nl := if |items| > 1 then "\n" else "";
      match items[0]
      case Plain(l) => SegmentsFrom(acc + l + nl, items[1..])
      case Marked(b) => TextIfAny(acc) + [Gen(b)] + SegmentsFrom(nl, items[1..])
  }

  function TextIfAny(s: string): seq<Segment> {
    if s == "" then [] else [Text(s)]
  }

  /** What the parser computes, line by line. */
  function Parse(content: string): seq<Segment> {
    SegmentsFrom("", ParseLines(Split(content)))
  }

  function RenderBlock(b: Block): string {
    OpenMarker(b.key, b.hash) + "\n" + b.body + "\n" + CLOSE
  }

  function RenderSegment(s: Segment): string {
    match s case Text(t) => t case Gen(b) => RenderBlock(b)
  }

  function Render(segs: seq<Segment>): string {
    if segs == [] then "" else RenderSegment(segs[0]) + Render(segs[1..])
  }

  function BlocksOf(segs: seq<Segment>): seq<Block> {
    if segs == [] then []
    else BlockOf(segs[0]) + BlocksOf(segs[1..])
  }

  function BlockOf(s: Segment): seq<Block> {
    match s case Text(_) => [] case Gen(b) => [b]
  }

  function MarkedBlocks(items: seq<Item>): seq<Block> {
    if items == [] then []
    else MarkOf(items[0]) + MarkedBlocks(items[1..])
  }

  function MarkOf(i: Item): seq<Block> {
    match i case Plain(_) => [] case Marked(b) => [b]
  }

  lemma {:induction false} RenderConcat(a: seq<Segment>, b: seq<Segment>)
    ensures Render(a + b) == Render(a) + Render(b)
  {
    hide RenderSegment;
    if a == [] {
      assert a + b == b;
    } else {
      RenderConcat(a[1..], b);
      Tail(a, b);
      Assoc(RenderSegment(a[0]), Render(a[1..]), Render(b));
    }
  }

  lemma {:induction false} BlocksOfConcat(a: seq<Segment>, b: seq<Segment>)
    ensures BlocksOf(a + b) == BlocksOf(a) + BlocksOf(b)
  {
    hide BlockOf;
    if a == [] {
      assert a + b == b;
    } else {
      BlocksOfConcat(a[1..], b);
      Tail(a, b);
      Assoc(BlockOf(a[0]), BlocksOf(a[1..]), BlocksOf(b));
    }
  }

  lemma RenderBlockLines(b: Block)
    requires ValidKey(b.key) && ValidHash(b.hash)
    ensures Split(RenderBlock(b)) == BlockLines(b)
    ensures RenderBlock(b) == Join(BlockLines(b))
  {
    hide OpenMarker, CLOSE;
    var open := OpenMarker(b.key, b.hash);
    MatchOpenMarker(b.key, b.hash);
    CloseHasNoNewline();
    FramedLines(open, b.body, CLOSE);
    JoinSplit(RenderBlock(b));
  }

  lemma CloseHasNoNewline()
    ensures '\n' !in CLOSE
  {
  }

  lemma FramedLines(open: string, body: string, close: string)
    requires '\n' !in open && '\n' !in close
    ensures Split(open + "\n" + body + "\n" + close) == [open] + Split(body) + [close]
  {
    SplitSingle(open);
    SplitSingle(close);
    SplitConcat(open + "\n" + body, close);
    SplitConcat(open, body);
  }

  predicate ValidMark(b: Block) { ValidKey(b.key) && ValidHash(b.hash) }

  predicate ValidMarks(items: seq<Item>) {
    forall i :: 0 <= i < |items| && items[i].Marked? ==> ValidMark(items[i].block)
  }

  lemma {:induction false} ParseLinesMarks(ls: seq<string>)
    ensures ValidMarks(ParseLines(ls))
    ensures ls != [] ==> ParseLines(ls) != []
    decreases |ls|
  {
    if ls != [] {
      var m, rest := MatchOpen(ls[0]), ls[1..];
      if m.Some? && FindClose(rest, 0).Some? {
        ParseLinesMarks(rest[FindClose(rest, 0).value + 1..]);
      } else {
        ParseLinesMarks(rest);
      }
    }
  }

  lemma {:induction false} RenderSegmentsFrom(acc: string, items: seq<Item>)
    requires ValidMarks(items)
    ensures Render(SegmentsFrom(acc, items)) == acc + if items == [] then "" else Join(Flatten(items))
    decreases |items|
  {
    hide Join, BlockLines, RenderBlock;
    if items != [] {
      var rest := items[1..];
      var nl := if |items| > 1 then "\n" else "";
      FlattenNonEmpty(items);
      match items[0] {
        case Plain(l) =>
          RenderSegmentsFrom(acc + l + nl, rest);
          JoinSingle(l);
          if rest != [] {
            FlattenNonEmpty(rest);
            JoinConcat([l], Flatten(rest));
          } else {
            assert [l] + Flatten(rest) == [l];
          }
        case Marked(b) =>
          RenderMarked(acc, b, nl, rest);
          RenderSegmentsFrom(nl, rest);
          RenderBlockLines(b);
          if rest != [] {
            FlattenNonEmpty(rest);
            JoinConcat(BlockLines(b), Flatten(rest));
          } else {
            assert BlockLines(b) + Flatten(rest) == BlockLines(b);
          }
      }
    }
  }

  lemma JoinSingle(l: string)
    ensures Join([l]) == l
  {
  }

  lemma RenderMarked(acc: string, b: Block, nl: string, rest: seq<Item>)
    ensures Render(TextIfAny(acc) + [Gen(b)] + SegmentsFrom(nl, rest))
            == acc + RenderBlock(b) + Render(SegmentsFrom(nl, rest))
  {
    hide RenderBlock;
    RenderConcat(TextIfAny(acc) + [Gen(b)], SegmentsFrom(nl, rest));
    RenderConcat(TextIfAny(acc), [Gen(b)]);
    assert Render([Gen(b)]) == RenderBlock(b) + "";
  }

  lemma FlattenNonEmpty(items: seq<Item>)
    requires items != []
    ensures Flatten(items) != []
  {
  }

  /** ParseBlocks is lossless: rendering the parsed segments gives back the content, for every string. */
  lemma ParseIsLossless(content: string)
    ensures Render(Parse(content)) == content
  {
    var ls := Split(content);
    SplitHasNoNewlines(content);
    ParseLinesMarks(ls);
    RenderSegmentsFrom("", ParseLines(ls));
    FlattenParseLines(ls);
    JoinSplit(content);
  }
  // ------------------------------------------------------------- the parser

  /** What is still to be emitted at position p, with text pending since textStart. */
  ghost function Remaining(c: string, textStart: nat, p: nat): seq<Segment>
    requires textStart <= |c| && textStart <= p <= |c| + 1
  {
    if p <= |c| then SegmentsFrom(c[textStart..p], ParseLines(Split(c[p..])))
    else SegmentsFrom(c[textStart..], [])
  }

  lemma StepText(c: string, textStart: nat, p: nat)
    requires textStart <= p < |c|
    requires var e := LineEnd(c, p);
             !IsOpen(c[p..e]) || e == |c| || FindClose(Split(c[e + 1..]), 0).None?
    ensures Remaining(c, textStart, p) == Remaining(c, textStart, LineEnd(c, p) + 1)
  {
    hide MatchOpen, Split;
    var e := LineEnd(c, p);
    var ls := Split(c[p..]);
    SplitAt(c, p);
    if e < |c| {
      var rest := Split(c[e + 1..]);
      assert ls[1..] == rest && ls[0] == c[p..e];
      ParseLinesMarks(rest);
      var items := ParseLines(ls);
      assert items == [Plain(c[p..e])] + ParseLines(rest);
      assert items[1..] == ParseLines(rest);
      assert c[textStart..p] + c[p..e] + "\n" == c[textStart..e + 1];
    } else {
      assert ls[1..] == [] && ls[0] == c[p..];
      var items := ParseLines(ls);
      assert FindClose([], 0).None?;
      assert ParseLines(ls[1..]) == [];
      assert items == [Plain(c[p..])] + [];
      assert items[1..] == [];
      assert c[textStart..p] + c[p..] + "" == c[textStart..];
    }
  }

  lemma StepBlock(c: string, textStart: nat, p: nat, j: nat, closeEnd: nat)
    requires textStart <= p < |c|
    requires LineEnd(c, p) < closeEnd <= |c| && (closeEnd < |c| ==> c[closeEnd] == '\n')
    requires IsOpen(c[p..LineEnd(c, p)])
    requires var ls := Split(c[LineEnd(c, p) + 1..]);
             && FindClose(ls, 0) == Some(j)
             && ls[j + 1..] == if closeEnd < |c| then Split(c[closeEnd + 1..]) else []
    ensures var e := LineEnd(c, p);
            var m := MatchOpen(c[p..e]).value;
            Remaining(c, textStart, p)
            == TextIfAny(c[textStart..p])
               + [Gen(Block(m.0, m.1, Join(Split(c[e + 1..])[..j])))]
               + Remaining(c, closeEnd, closeEnd + 1)
  {
    hide MatchOpen, FindClose, Split, Join, ParseLines, LineEnd, SegmentsFrom;
    var e := LineEnd(c, p);
    var ls := Split(c[p..]);
    SplitAt(c, p);
    var rest := Split(c[e + 1..]);
    assert ls[1..] == rest && ls[0] == c[p..e];
    var after := rest[j + 1..];
    ParseMarkedFirst(ls, j);
    var m := MatchOpen(c[p..e]).value;
    SegmentsMarked(c[textStart..p], Block(m.0, m.1, Join(rest[..j])), ParseLines(after));
    ParseLinesMarks(after);
    AfterClose(c, closeEnd, after);
  }

  lemma SegmentsMarked(acc: string, b: Block, rest: seq<Item>)
    ensures SegmentsFrom(acc, [Marked(b)] + rest)
            == TextIfAny(acc) + [Gen(b)] + SegmentsFrom(if rest == [] then "" else "\n", rest)
  {
    assert ([Marked(b)] + rest)[1..] == rest;
  }

  /** What is left after a closing line at the given end. */
  lemma AfterClose(c: string, closeEnd: nat, after: seq<string>)
    requires closeEnd <= |c| && (closeEnd < |c| ==> c[closeEnd] == '\n')
    requires after == if closeEnd < |c| then Split(c[closeEnd + 1..]) else []
    ensures Remaining(c, closeEnd, closeEnd + 1)
            == SegmentsFrom(if ParseLines(after) == [] then "" else "\n", ParseLines(after))
  {
    hide Split, ParseLines, SegmentsFrom;
    if closeEnd < |c| {
      assert c[closeEnd..closeEnd + 1] == "\n";
      SplitNonEmpty(c[closeEnd + 1..]);
      ParseLinesMarks(after);
    } else {
      assert c[closeEnd..] == "";
      ParseNothing();
    }
  }

  lemma SplitNonEmpty(s: string)
    ensures Split(s) != []
  {
  }

  lemma ParseNothing()
    ensures ParseLines([]) == []
  {
  }

  lemma ParseMarkedFirst(ls: seq<string>, j: nat)
    requires ls != [] && IsOpen(ls[0]) && FindClose(ls[1..], 0) == Some(j)
    ensures var m := MatchOpen(ls[0]).value;
            ParseLines(ls) == [Marked(Block(m.0, m.1, Join(ls[1..][..j])))] + ParseLines(ls[1..][j + 1..])
  {
    hide MatchOpen, Join;
  }

  method ParseBlocks(content: string) returns (segs: seq<Segment>)
    ensures segs == Parse(content)
    ensures Render(segs) == content
  {
    hide MatchOpen, Parse, Remaining, Split, Join, LineEnd, Render, FindClose, CLOSE;
    segs := [];
    StartOfParse(content);
    var textStart: nat, p: nat := 0, 0;
    while p < |content|
      invariant textStart <= |content| && textStart <= p <= |content| + 1
      invariant Parse(content) == segs + Remaining(content, textStart, p)
    {
      var eol := LineEnd(content, p);
      var m := MatchOpen(content[p..eol]);
      if m.None? || eol == |content| {
        StepText(content, textStart, p);
        p := eol + 1;
        continue;
      }
      var bodyStart := eol + 1;
      var closed, closeAt, closeEnd := ScanClose(content, bodyStart);
      if !closed {
        StepText(content, textStart, p);
        p := eol + 1;
        continue;
      }
      StepBlock(content, textStart, p, FindClose(Split(content[bodyStart..]), 0).value, closeEnd);
      var b := Block(m.value.0, m.value.1, content[bodyStart..closeAt - 1]);
      ghost var emitted := TextIfAny(content[textStart..p]) + [Gen(b)];
      Assoc(segs, emitted, Remaining(content, closeEnd, closeEnd + 1));
      ghost var segs0 := segs;
      if p > textStart {
        segs := segs + [Text(content[textStart..p])];
      }
      segs := segs + [Gen(b)];
      assert segs == segs0 + emitted;
      textStart := closeEnd;
      p := closeEnd + 1;
    }
    EndOfParse(content, textStart, p);
    if textStart < |content| {
      segs := segs + [Text(content[textStart..])];
    }
    ParseIsLossless(content);
  }

  lemma StartOfParse(c: string)
    ensures Parse(c) == Remaining(c, 0, 0)
  {
    assert c[0..] == c && c[0..0] == "";
  }

  lemma EndOfParse(c: string, textStart: nat, p: nat)
    requires textStart <= |c| && textStart <= p && |c| <= p <= |c| + 1
    ensures Remaining(c, textStart, p) == TextIfAny(c[textStart..])
  {
    hide MatchOpen;
    if p == |c| {
      assert c[p..] == "";
      EmptyLineIsPlain();
      var items := [Plain("")];
      assert items[1..] == [];
      assert c[textStart..p] + "" + "" == c[textStart..];
    }
  }

  lemma EmptyLineIsPlain()
    ensures ParseLines(Split("")) == [Plain("")]
  {
    var ls := [""];
    assert ls[1..] == [] && ParseLines([]) == [];
  }

  /** The inner loop: looks for the closing line of a block whose body starts at bodyStart. */
  method ScanClose(c: string, bodyStart: nat) returns (closed: bool, closeAt: nat, closeEnd: nat)
    requires bodyStart <= |c|
    ensures closed <==> FindClose(Split(c[bodyStart..]), 0).Some?
    ensures var ls := Split(c[bodyStart..]);
            closed ==>
              var j := FindClose(ls, 0).value;
              && bodyStart < closeAt <= closeEnd <= |c|
              && (closeEnd < |c| ==> c[closeEnd] == '\n')
              && c[closeAt..closeEnd] == CLOSE
              && c[bodyStart..closeAt - 1] == Join(ls[..j])
              && ls[j + 1..] == (if closeEnd < |c| then Split(c[closeEnd + 1..]) else [])
  {
    hide MatchOpen, Split, Join, CLOSE, ScanAt, LineEnd;
    closed, closeAt, closeEnd := false, 0, 0;
    ghost var ls, j: nat := Split(c[bodyStart..]), 0;
    var q := bodyStart;
    ScanStart(c, bodyStart);
    while q <= |c|
      invariant bodyStart <= q <= |c| && j < |ls|
      invariant ScanAt(c, bodyStart, q, ls, j)
      invariant FindClose(ls, 0) == FindClose(ls, j)
      decreases |c| - q
    {
      var qe := LineEnd(c, q);
      ScanStep(c, bodyStart, q, ls, j);
      if c[q..qe] == CLOSE && q > bodyStart {
        closed, closeAt, closeEnd := true, q, qe;
        return;
      }
      if MatchOpen(c[q..qe]).Some? || qe == |c| {
        return;
      }
      q := qe + 1;
      j := j + 1;
    }
  }

  /** The scan has passed the first j body lines ls and stands at position q. */
  ghost predicate ScanAt(c: string, bodyStart: nat, q: nat, ls: seq<string>, j: nat)
    requires bodyStart <= q <= |c|
  {
    && j <= |ls|
    && Split(c[q..]) == ls[j..]
    && (j == 0 <==> q == bodyStart)
    && (j > 0 ==> c[q - 1] == '\n' && c[bodyStart..q - 1] == Join(ls[..j]))
  }

  lemma ScanStart(c: string, bodyStart: nat)
    requires bodyStart <= |c|
    ensures ScanAt(c, bodyStart, bodyStart, Split(c[bodyStart..]), 0)
  {
  }

  lemma ScanStep(c: string, bodyStart: nat, q: nat, ls: seq<string>, j: nat)
    requires bodyStart <= q <= |c|
    requires ScanAt(c, bodyStart, q, ls, j)
    ensures var qe := LineEnd(c, q);
            && j < |ls| && ls[j] == c[q..qe]
            && (q > bodyStart ==> j > 0 && c[bodyStart..q - 1] == Join(ls[..j]))
            && (q == bodyStart ==> j == 0)
            && (if qe < |c| then j + 1 < |ls| && ScanAt(c, bodyStart, qe + 1, ls, j + 1) else j + 1 == |ls|)
            && ls[j + 1..] == if qe < |c| then Split(c[qe + 1..]) else []
  {
    hide Split, Join, LineEnd;
    var qe := LineEnd(c, q);
    SplitAt(c, q);
    assert ls[j..][0] == ls[j] && ls[j..][1..] == ls[j + 1..];
    if qe == |c| {
      assert c[q..] == c[q..qe];
    } else {
      BodyGrows(c, bodyStart, q, qe, ls, j);
    }
  }

  lemma BodyGrows(c: string, bodyStart: nat, q: nat, qe: nat, ls: seq<string>, j: nat)
    requires bodyStart <= q <= qe < |c| && j < |ls| && ls[j] == c[q..qe]
    requires j == 0 <==> q == bodyStart
    requires j > 0 ==> c[q - 1] == '\n' && c[bodyStart..q - 1] == Join(ls[..j])
    ensures c[bodyStart..qe] == Join(ls[..j + 1])
  {
    hide Join;
    assert ls[..j + 1] == ls[..j] + [ls[j]];
    JoinSingle(ls[j]);
    if j > 0 {
      JoinConcat(ls[..j], [ls[j]]);
      assert c[bodyStart..qe] == c[bodyStart..q - 1] + [c[q - 1]] + c[q..qe];
    } else {
      assert ls[..1] == [ls[0]];
    }
  }
}
