/** Where blocks sit in the text. A document is seen as its blocks and the gaps
    of text before, between and after them. Blocks on their own lines re-parse
    to themselves exactly when no gap parses to a block of its own. */
module Layout {
  import opened Lines
  import opened Blocks

  // ------------------------------------------------------------- gaps of text

  function Gaps(segs: seq<Segment>): (g: seq<string>)
    ensures |g| == |BlocksOf(segs)| + 1
  {
    if segs == [] then [""]
    else
      var g := Gaps(segs[1..]);
      match segs[0]
      case Text(t) => [t + g[0]] + g[1..]
      case Gen(_) => [""] + g
  }

  /** Two gap lists put together: the last gap of one continues into the first of the other. */
  function Glue(a: seq<string>, b: seq<string>): (g: seq<string>)
    requires a != [] && b != []
    ensures |g| == |a| + |b| - 1
  {
    a[..|a| - 1] + [a[|a| - 1] + b[0]] + b[1..]
  }

  lemma GluePrefix(t: string, a: seq<string>, b: seq<string>)
    requires a != [] && b != []
    ensures [t + Glue(a, b)[0]] + Glue(a, b)[1..] == Glue([t + a[0]] + a[1..], b)
  {
    var l, r := [t + Glue(a, b)[0]] + Glue(a, b)[1..], Glue([t + a[0]] + a[1..], b);
    if |a| == 1 {
      Assoc(t, a[0], b[0]);
    }
    forall i | 0 <= i < |l| ensures l[i] == r[i] {
    }
  }

  lemma GlueCons(s: string, a: seq<string>, b: seq<string>)
    requires a != [] && b != []
    ensures [s] + Glue(a, b) == Glue([s] + a, b)
  {
    assert ([s] + a)[..|a|] == [s] + a[..|a| - 1];
  }

  lemma {:induction false} GapsConcat(a: seq<Segment>, b: seq<Segment>)
    ensures Gaps(a + b) == Glue(Gaps(a), Gaps(b))
  {
    hide Glue;
    if a == [] {
      assert a + b == b;
      GlueEmpty(Gaps(b));
    } else {
      GapsConcat(a[1..], b);
      assert (a + b)[1..] == a[1..] + b;
      if a[0].Text? {
        GluePrefix(a[0].text, Gaps(a[1..]), Gaps(b));
      } else {
        GlueCons("", Gaps(a[1..]), Gaps(b));
      }
    }
  }

  lemma GlueEmpty(b: seq<string>)
    requires b != []
    ensures Glue([""], b) == b
  {
    assert "" + b[0] == b[0];
  }

  function RenderDoc(gaps: seq<string>, blocks: seq<Block>): string
    requires |gaps| == |blocks| + 1
    decreases |blocks|
  {
    if blocks == [] then gaps[0]
    else gaps[0] + RenderBlock(blocks[0]) + RenderDoc(gaps[1..], blocks[1..])
  }

  lemma {:induction false} RenderByGaps(segs: seq<Segment>)
    ensures Render(segs) == RenderDoc(Gaps(segs), BlocksOf(segs))
  {
    hide RenderBlock;
    if segs != [] {
      RenderByGaps(segs[1..]);
      var g, bs := Gaps(segs[1..]), BlocksOf(segs[1..]);
      match segs[0] {
        case Text(t) =>
          assert BlocksOf(segs) == bs;
          RenderDocPrefix(t, g, bs);
        case Gen(b) =>
          assert BlocksOf(segs)[0] == b && BlocksOf(segs)[1..] == bs;
          assert Gaps(segs)[1..] == g;
          assert "" + RenderBlock(b) == RenderBlock(b);
      }
    }
  }

  lemma RenderDocPrefix(t: string, g: seq<string>, bs: seq<Block>)
    requires |g| == |bs| + 1
    ensures RenderDoc([t + g[0]] + g[1..], bs) == t + RenderDoc(g, bs)
  {
    hide RenderBlock;
    var g' := [t + g[0]] + g[1..];
    if bs != [] {
      assert g'[1..] == g[1..];
      var x, y := RenderBlock(bs[0]), RenderDoc(g[1..], bs[1..]);
      Assoc(t, g[0], x);
      Assoc(t, g[0] + x, y);
    }
  }

  // --------------------------------------------------- blocks on their own lines

  /** A gap that keeps the neighbouring blocks on lines of their own. */
  ghost predicate GapOk(g: string, first: bool, last: bool) {
    && (first || StartsNL(g) || (last && g == ""))
    && (last || EndsNL(g) || (first && g == ""))
  }

  ghost predicate Aligned(gaps: seq<string>, first: bool) {
    forall i :: 0 <= i < |gaps| ==> GapOk(gaps[i], first && i == 0, i == |gaps| - 1)
  }

  /** The whole lines of a gap. */
  ghost function GapLines(g: string, first: bool, last: bool): (ls: seq<string>)
    requires GapOk(g, first, last)
  {
    GapSplit(g);
    var ls := Split(g);
    ls[if first then 0 else 1..if last then |ls| else |ls| - 1]
  }

  lemma GapSplit(g: string)
    ensures StartsNL(g) ==> |Split(g)| >= 2 && Split(g)[0] == "" && Split(g) == [""] + Split(g[1..])
    ensures EndsNL(g) ==> |Split(g)| >= 2 && Split(g)[|Split(g)| - 1] == "" && Split(g) == Split(g[..|g| - 1]) + [""]
  {
    if StartsNL(g) {
      assert g == "" + "\n" + g[1..];
      SplitConcat("", g[1..]);
    }
    if EndsNL(g) {
      assert g == g[..|g| - 1] + "\n" + "";
      SplitConcat(g[..|g| - 1], "");
    }
  }

  ghost function DocLines(gaps: seq<string>, blocks: seq<Block>, first: bool): seq<string>
    requires |gaps| == |blocks| + 1 && Aligned(gaps, first)
    decreases |blocks|
  {
    if blocks == [] then GapLines(gaps[0], first, true)
    else
      assert Aligned(gaps[1..], false);
      GapLines(gaps[0], first, false) + BlockLines(blocks[0]) + DocLines(gaps[1..], blocks[1..], false)
  }

  ghost predicate ValidDoc(blocks: seq<Block>) {
    forall i :: 0 <= i < |blocks| ==> WfBlock(blocks[i])
  }

  /** The lines of an aligned document are those of its gaps and of its blocks. */
  lemma {:induction false} SplitDoc(gaps: seq<string>, blocks: seq<Block>, first: bool)
    requires |gaps| == |blocks| + 1 && Aligned(gaps, first) && ValidDoc(blocks)
    ensures var ls := Split(RenderDoc(gaps, blocks));
            if first then ls == DocLines(gaps, blocks, true)
            else ls[0] == "" && ls[1..] == DocLines(gaps, blocks, false)
    decreases |blocks|
  {
    hide RenderBlock, BlockLines, Split;
    var g := gaps[0];
    GapSplit(g);
    SplitEmpty();
    if blocks == [] {
      assert RenderDoc(gaps, blocks) == g;
    } else {
      assert Aligned(gaps[1..], false);
      SplitDoc(gaps[1..], blocks[1..], false);
      var b, rest := blocks[0], RenderDoc(gaps[1..], blocks[1..]);
      RenderBlockLines(b);
      var tail := DocLines(gaps[1..], blocks[1..], false);
      RestStartsNL(gaps[1..], blocks[1..]);
      BlockThenRest(RenderBlock(b), rest, tail, BlockLines(b));
      var mid := RenderBlock(b) + rest;
      assert RenderDoc(gaps, blocks) == g + mid by { Assoc(g, RenderBlock(b), rest); }
      if g == "" {
        assert g + mid == mid;
        assert GapLines(g, first, false) == [];
        assert [] + BlockLines(b) + tail == BlockLines(b) + tail;
      } else {
        var x := g[..|g| - 1];
        assert g == x + "\n";
        SplitConcat(x, mid);
        var ls := Split(x) + Split(mid);
        assert ls[0] == Split(x)[0];
        if first {
          assert GapLines(g, true, false) == Split(x);
          Assoc(Split(x), BlockLines(b), tail);
        } else {
          assert GapLines(g, false, false) == Split(x)[1..];
          assert ls[1..] == Split(x)[1..] + Split(mid);
          Assoc(Split(x)[1..], BlockLines(b), tail);
        }
      }
    }
  }

  lemma SplitEmpty()
    ensures Split("") == [""]
  {
  }

  lemma RestStartsNL(gaps: seq<string>, blocks: seq<Block>)
    requires |gaps| == |blocks| + 1 && Aligned(gaps, false)
    ensures var r := RenderDoc(gaps, blocks); r == "" || StartsNL(r)
  {
    hide RenderBlock;
  }

  lemma BlockThenRest(block: string, rest: string, tail: seq<string>, ls: seq<string>)
    requires Split(block) == ls
    requires rest == "" || StartsNL(rest)
    requires Split(rest)[0] == "" && Split(rest)[1..] == tail
    ensures Split(block + rest) == ls + tail
  {
    hide Split;
    if rest == "" {
      SplitEmpty();
      assert block + rest == block;
      assert ls + [] == ls;
    } else {
      var y := rest[1..];
      GapSplit(rest);
      assert ([""] + Split(y))[1..] == Split(y);
      assert block + rest == block + "\n" + y;
      SplitConcat(block, y);
    }
  }

  // ----------------------------------------------------------- parsing is local

  ghost predicate WfBody(ls: seq<string>) {
    && |ls| >= 1
    && (forall i :: 0 <= i < |ls| ==> !IsOpen(ls[i]))
    && (forall i :: 1 <= i < |ls| ==> ls[i] != CLOSE)
  }

  /** A block that is still recognised after it has been written out. */
  ghost predicate WfBlock(b: Block) { ValidMark(b) && WfBody(Split(b.body)) }

  lemma {:induction false} FindCloseBody(ls: seq<string>, rest: seq<string>, j: nat)
    requires WfBody(ls) && j <= |ls|
    ensures FindClose(ls + [CLOSE] + rest, j) == Some(|ls|)
    decreases |ls| - j
  {
    hide IsOpen, CLOSE;
    var all := ls + [CLOSE] + rest;
    if j < |ls| {
      assert all[j] == ls[j];
      FindCloseBody(ls, rest, j + 1);
    } else {
      assert all[j] == CLOSE;
    }
  }

  lemma ParseBlockLines(b: Block, rest: seq<string>)
    requires WfBlock(b)
    ensures ParseLines(BlockLines(b) + rest) == [Marked(b)] + ParseLines(rest)
  {
    hide OpenMarker, MatchOpen, CLOSE, Split, Join, FindClose;
    var body := Split(b.body);
    var all := BlockLines(b) + rest;
    MatchOpenMarker(b.key, b.hash);
    FindCloseBody(body, rest, 0);
    assert all[1..] == body + [CLOSE] + rest;
    assert (body + [CLOSE] + rest)[..|body|] == body;
    assert (body + [CLOSE] + rest)[|body| + 1..] == rest;
    JoinSplit(b.body);
  }

  /** Lines that stop a search for a closing marker: none, an opener, or a final empty line. */
  ghost predicate Barrier(r: seq<string>) {
    r == [] || IsOpen(r[0]) || r == [""]
  }

  lemma {:induction false} FindCloseBarrier(ls: seq<string>, r: seq<string>, j: nat)
    requires Barrier(r) && j <= |ls|
    ensures FindClose(ls + r, j) == FindClose(ls, j)
    decreases |ls| - j
  {
    hide MatchOpen;
    if j < |ls| {
      assert (ls + r)[j] == ls[j];
      FindCloseBarrier(ls, r, j + 1);
    } else if r != [] {
      assert (ls + r)[j] == r[0];
      OpenIsNotClose(r[0]);
      if !IsOpen(r[0]) {
        assert FindClose(ls + r, j) == FindClose(ls + r, j + 1);
      }
    }
  }

  lemma OpenIsNotClose(l: string)
    ensures IsOpen(l) ==> l != CLOSE
    ensures !IsOpen("") && "" != CLOSE
  {
  }

  /** Parsing up to a barrier does not look beyond it. */
  lemma {:induction false} ParseBarrier(ls: seq<string>, r: seq<string>)
    requires Barrier(r)
    ensures ParseLines(ls + r) == ParseLines(ls) + ParseLines(r)
    decreases |ls|
  {
    hide MatchOpen, Barrier, Join;
    if ls == [] {
      assert ls + r == r;
    } else {
      var rest := ls[1..];
      assert (ls + r)[1..] == rest + r && (ls + r)[0] == ls[0];
      FindCloseBarrier(rest, r, 0);
      if MatchOpen(ls[0]).Some? && FindClose(rest, 0).Some? {
        var j := FindClose(rest, 0).value;
        assert (rest + r)[..j] == rest[..j];
        assert (rest + r)[j + 1..] == rest[j + 1..] + r;
        ParseBarrier(rest[j + 1..], r);
      } else {
        ParseBarrier(rest, r);
      }
    }
  }

  /** A gap that, read alone, contains no block. */
  ghost predicate Inert(g: string) { MarkedBlocks(ParseLines(Split(g))) == [] }

  lemma {:induction false} MarkedConcat(a: seq<Item>, b: seq<Item>)
    ensures MarkedBlocks(a + b) == MarkedBlocks(a) + MarkedBlocks(b)
  {
    hide MarkOf;
    if a == [] {
      assert a + b == b;
    } else {
      MarkedConcat(a[1..], b);
      Tail(a, b);
      Assoc(MarkOf(a[0]), MarkedBlocks(a[1..]), MarkedBlocks(b));
    }
  }

  lemma PlainEmptyLine()
    ensures ParseLines([""]) == [Plain("")]
    ensures MarkedBlocks([Plain("")]) == []
  {
    SplitEmpty();
    EmptyLineIsPlain();
    assert [Plain("")][1..] == [];
  }

  lemma LeadingEmptyLine(ls: seq<string>)
    ensures MarkedBlocks(ParseLines([""] + ls)) == MarkedBlocks(ParseLines(ls))
  {
    hide MatchOpen;
    assert ([""] + ls)[1..] == ls;
    OpenIsNotClose("");
    assert ParseLines([""] + ls) == [Plain("")] + ParseLines(ls);
    MarkedConcat([Plain("")], ParseLines(ls));
    PlainEmptyLine();
  }

  lemma TrailingEmptyLine(ls: seq<string>)
    ensures MarkedBlocks(ParseLines(ls + [""])) == MarkedBlocks(ParseLines(ls))
  {
    ParseBarrier(ls, [""]);
    PlainEmptyLine();
    MarkedConcat(ParseLines(ls), [Plain("")]);
    assert MarkedBlocks(ParseLines(ls)) + [] == MarkedBlocks(ParseLines(ls));
  }

  /** The blocks hidden in a gap are those of its whole lines. */
  lemma GapBlocks(g: string, first: bool, last: bool)
    requires GapOk(g, first, last)
    ensures MarkedBlocks(ParseLines(GapLines(g, first, last))) == MarkedBlocks(ParseLines(Split(g)))
  {
    hide Split, ParseLines;
    GapSplit(g);
    SplitEmpty();
    PlainEmptyLine();
    var ls := Split(g);
    var a := if first then ls else ls[1..];
    if !first {
      assert ls == [""] + ls[1..];
      LeadingEmptyLine(ls[1..]);
    }
    if last {
      assert GapLines(g, first, last) == a;
    } else if g == "" {
      assert GapLines(g, first, last) == [];
      TrailingEmptyLine([]);
      assert [] + [""] == [""];
    } else {
      assert a == GapLines(g, first, last) + [""];
      TrailingEmptyLine(GapLines(g, first, last));
    }
  }

  ghost predicate AllInert(gaps: seq<string>) {
    forall i :: 0 <= i < |gaps| ==> Inert(gaps[i])
  }

  /** The blocks a gap holds when it is read alone. */
  ghost function Revealed(g: string): seq<Block> { MarkedBlocks(ParseLines(Split(g))) }

  /** The blocks of a document with those hidden in its gaps, in reading order. */
  ghost function Found(gaps: seq<string>, blocks: seq<Block>): seq<Block>
    requires |gaps| == |blocks| + 1
    decreases |blocks|
  {
    if blocks == [] then Revealed(gaps[0]) else Revealed(gaps[0]) + ([blocks[0]] + Found(gaps[1..], blocks[1..]))
  }

  /** Parsing an aligned document finds its own blocks, plus those hidden in its gaps. */
  lemma {:induction false} ParseDocLines(gaps: seq<string>, blocks: seq<Block>, first: bool)
    requires |gaps| == |blocks| + 1 && Aligned(gaps, first) && ValidDoc(blocks)
    ensures MarkedBlocks(ParseLines(DocLines(gaps, blocks, first))) == Found(gaps, blocks)
    decreases |blocks|
  {
    hide ParseLines, MarkedBlocks, Split, GapLines, BlockLines;
    GapBlocks(gaps[0], first, blocks == []);
    if blocks != [] {
      assert Aligned(gaps[1..], false);
      ParseDocLines(gaps[1..], blocks[1..], false);
      var gl, tail := GapLines(gaps[0], first, false), DocLines(gaps[1..], blocks[1..], false);
      BlockLinesBarrier(blocks[0], tail);
      ParseBarrier(gl, BlockLines(blocks[0]) + tail);
      ParseBlockLines(blocks[0], tail);
      Assoc(gl, BlockLines(blocks[0]), tail);
      MarkedConcat(ParseLines(gl), [Marked(blocks[0])] + ParseLines(tail));
      MarkedConcat([Marked(blocks[0])], ParseLines(tail));
      MarkedSingle(blocks[0]);
    }
  }

  lemma {:induction false} FoundExactly(gaps: seq<string>, blocks: seq<Block>)
    requires |gaps| == |blocks| + 1
    ensures Found(gaps, blocks) == blocks <==> AllInert(gaps)
    ensures |Found(gaps, blocks)| >= |blocks|
    decreases |blocks|
  {
    hide ParseLines, MarkedBlocks, Split;
    assert Inert(gaps[0]) <==> Revealed(gaps[0]) == [];
    if blocks != [] {
      FoundExactly(gaps[1..], blocks[1..]);
      var rest := Found(gaps[1..], blocks[1..]);
      assert AllInert(gaps) <==> Inert(gaps[0]) && AllInert(gaps[1..]) by {
        InertSplit(gaps);
      }
      if Revealed(gaps[0]) == [] {
        assert Found(gaps, blocks) == [blocks[0]] + rest;
        assert Found(gaps, blocks)[1..] == rest;
      } else {
        assert |Found(gaps, blocks)| > |blocks|;
      }
    }
  }

  lemma InertSplit(gaps: seq<string>)
    requires gaps != []
    ensures AllInert(gaps) <==> Inert(gaps[0]) && AllInert(gaps[1..])
  {
    hide Inert;
    if Inert(gaps[0]) && AllInert(gaps[1..]) {
      forall i | 0 <= i < |gaps| ensures Inert(gaps[i]) {
        if i > 0 {
          assert gaps[i] == gaps[1..][i - 1];
        }
      }
    }
    if AllInert(gaps) {
      forall i | 0 <= i < |gaps| - 1 ensures Inert(gaps[1..][i]) {
        assert gaps[1..][i] == gaps[i + 1];
      }
    }
  }

  lemma MarkedSingle(b: Block)
    ensures MarkedBlocks([Marked(b)]) == [b]
  {
    assert [Marked(b)][1..] == [];
  }

  lemma BlockLinesBarrier(b: Block, tail: seq<string>)
    requires WfBlock(b)
    ensures Barrier(BlockLines(b) + tail)
  {
    hide OpenMarker, MatchOpen, Split, CLOSE;
    MatchOpenMarker(b.key, b.hash);
    assert (BlockLines(b) + tail)[0] == OpenMarker(b.key, b.hash);
  }

  lemma {:induction false} BlocksOfSegmentsFrom(acc: string, items: seq<Item>)
    ensures BlocksOf(SegmentsFrom(acc, items)) == MarkedBlocks(items)
    decreases |items|
  {
    if items != [] {
      var nl := if |items| > 1 then "\n" else "";
      match items[0] {
        case Plain(l) =>
          BlocksOfSegmentsFrom(acc + l + nl, items[1..]);
        case Marked(b) =>
          BlocksOfSegmentsFrom(nl, items[1..]);
          var rest := SegmentsFrom(nl, items[1..]);
          BlocksOfConcat(TextIfAny(acc) + [Gen(b)], rest);
          BlocksOfConcat(TextIfAny(acc), [Gen(b)]);
          assert BlocksOf([Gen(b)]) == [b];
      }
    }
  }

  ghost predicate WellLaidOut(segs: seq<Segment>) {
    Aligned(Gaps(segs), true) && ValidDoc(BlocksOf(segs))
  }

  /** Writing out blocks that sit on their own lines and reading them back finds
      the blocks and whatever the gaps of text between them hide. */
  lemma ReparseFinds(segs: seq<Segment>)
    requires WellLaidOut(segs)
    ensures BlocksOf(Parse(Render(segs))) == Found(Gaps(segs), BlocksOf(segs))
  {
    hide ParseLines, MarkedBlocks, Split, RenderDoc, Found;
    var gaps, blocks := Gaps(segs), BlocksOf(segs);
    RenderByGaps(segs);
    SplitDoc(gaps, blocks, true);
    ParseDocLines(gaps, blocks, true);
    BlocksOfSegmentsFrom("", ParseLines(Split(Render(segs))));
  }

  /** So it gives the same blocks exactly when no gap hides a block of its own. */
  lemma ReparseExactly(segs: seq<Segment>)
    requires WellLaidOut(segs)
    ensures BlocksOf(Parse(Render(segs))) == BlocksOf(segs) <==> AllInert(Gaps(segs))
  {
    hide Parse, Found, AllInert;
    ReparseFinds(segs);
    FoundExactly(Gaps(segs), BlocksOf(segs));
  }

  // ------------------------------------------------------ the gaps come back too

  function Plains(ls: seq<string>): seq<Item> {
    seq(|ls|, i requires 0 <= i < |ls| => Plain(ls[i]))
  }

  ghost function DocItems(gaps: seq<string>, blocks: seq<Block>, first: bool): seq<Item>
    requires |gaps| == |blocks| + 1 && Aligned(gaps, first)
    decreases |blocks|
  {
    if blocks == [] then Plains(GapLines(gaps[0], first, true))
    else
      assert Aligned(gaps[1..], false);
      Plains(GapLines(gaps[0], first, false)) + ([Marked(blocks[0])] + DocItems(gaps[1..], blocks[1..], false))
  }

  lemma {:induction false} ParsePlain(ls: seq<string>)
    requires MarkedBlocks(ParseLines(ls)) == []
    ensures ParseLines(ls) == Plains(ls)
    decreases |ls|
  {
    hide MatchOpen, Join;
    if ls != [] {
      var items := ParseLines(ls);
      assert items[0].Plain?;
      assert items == [Plain(ls[0])] + ParseLines(ls[1..]);
      assert items[1..] == ParseLines(ls[1..]);
      ParsePlain(ls[1..]);
    }
  }

  lemma {:induction false} ParseDocItems(gaps: seq<string>, blocks: seq<Block>, first: bool)
    requires |gaps| == |blocks| + 1 && Aligned(gaps, first) && ValidDoc(blocks) && AllInert(gaps)
    ensures ParseLines(DocLines(gaps, blocks, first)) == DocItems(gaps, blocks, first)
    decreases |blocks|
  {
    hide ParseLines, MarkedBlocks, Split, GapLines, BlockLines, Plains;
    var g := gaps[0];
    assert Inert(g);
    GapBlocks(g, first, blocks == []);
    ParsePlain(GapLines(g, first, blocks == []));
    if blocks != [] {
      assert Aligned(gaps[1..], false);
      ParseDocItems(gaps[1..], blocks[1..], false);
      var gl, tail := GapLines(g, first, false), DocLines(gaps[1..], blocks[1..], false);
      BlockLinesBarrier(blocks[0], tail);
      ParseBarrier(gl, BlockLines(blocks[0]) + tail);
      ParseBlockLines(blocks[0], tail);
      Assoc(gl, BlockLines(blocks[0]), tail);
    }
  }

  lemma {:induction false} SegmentsPlains(acc: string, ls: seq<string>, rest: seq<Item>)
    requires ls != []
    ensures SegmentsFrom(acc, Plains(ls) + rest)
            == SegmentsFrom(acc + Join(ls) + (if rest == [] then "" else "\n"), rest)
    decreases |ls|
  {
    var items := Plains(ls) + rest;
    assert items[0] == Plain(ls[0]);
    assert items[1..] == Plains(ls[1..]) + rest;
    if |ls| > 1 {
      SegmentsPlains(acc + ls[0] + "\n", ls[1..], rest);
      assert acc + ls[0] + "\n" + Join(ls[1..]) == acc + Join(ls);
    } else {
      assert Plains(ls[1..]) + rest == rest;
    }
  }

  /** The text of a gap is put back together from its lines. */
  lemma GapText(g: string, first: bool, last: bool)
    requires GapOk(g, first, last)
    ensures var ls, lead := GapLines(g, first, last), if first || (last && g == "") then "" else "\n";
            && g == lead + (if ls == [] then "" else Join(ls)) + (if last || ls == [] then "" else "\n")
            && (last ==> (ls == [] <==> !first && g == ""))
  {
    hide Split, Join, GapLines;
    if g == "" {
      GapTextEmpty(first, last);
    } else if first {
      GapTextFirst(g, last);
    } else if last {
      GapTextLast(g);
    } else {
      GapTextBetween(g);
    }
  }

  lemma GapTextEmpty(first: bool, last: bool)
    requires GapOk("", first, last)
    ensures var ls := GapLines("", first, last);
            && (ls == [] || Join(ls) == "") && (ls == [] <==> !(first && last))
  {
    SplitEmpty();
    assert [""][1..] == [] && [""][..0] == [];
    JoinSingle("");
  }

  lemma GapTextFirst(g: string, last: bool)
    requires g != "" && GapOk(g, true, last)
    ensures var ls := GapLines(g, true, last);
            ls != [] && g == "" + Join(ls) + if last then "" else "\n"
  {
    hide Split, Join;
    if last {
      JoinSplit(g);
      SplitNonEmpty(g);
      assert GapLines(g, true, last) == Split(g);
      assert "" + g + "" == g;
    } else {
      var x := g[..|g| - 1];
      GapSplit(g);
      JoinSplit(x);
      SplitNonEmpty(x);
      assert GapLines(g, true, last) == Split(x);
      assert g == "" + x + "\n";
    }
  }

  lemma GapTextLast(g: string)
    requires g != "" && GapOk(g, false, true)
    ensures var ls := GapLines(g, false, true); ls != [] && g == "\n" + Join(ls) + ""
  {
    hide Split, Join;
    GapSplit(g);
    JoinSplit(g[1..]);
    SplitNonEmpty(g[1..]);
    assert GapLines(g, false, true) == Split(g[1..]);
    assert g == "\n" + g[1..] + "";
  }

  lemma GapTextBetween(g: string)
    requires g != "" && StartsNL(g) && EndsNL(g)
    ensures var ls := GapLines(g, false, false);
            g == "\n" + (if ls == [] then "" else Join(ls)) + (if ls == [] then "" else "\n")
  {
    hide Split, Join;
    GapSplit(g);
    SplitEmpty();
    if |g| == 1 {
      assert g[1..] == "";
      assert GapLines(g, false, false) == [];
      assert g == "\n" + "" + "";
    } else {
      var y := g[1..|g| - 1];
      GapSplit(g[1..]);
      assert g[1..][..|g[1..]| - 1] == y;
      JoinSplit(y);
      assert Split(g) == [""] + (Split(y) + [""]);
      assert GapLines(g, false, false) == Split(y);
      assert g == "\n" + y + "\n";
    }
  }

  lemma {:induction false} GapsOfDocItems(gaps: seq<string>, blocks: seq<Block>, first: bool)
    requires |gaps| == |blocks| + 1 && Aligned(gaps, first)
    ensures var items := DocItems(gaps, blocks, first);
            Gaps(SegmentsFrom(if first || items == [] then "" else "\n", items)) == gaps
    decreases |blocks|
  {
    hide GapLines, Join, Split, Plains;
    var items := DocItems(gaps, blocks, first);
    var g, ls := gaps[0], GapLines(gaps[0], first, blocks == []);
    var lead := if first || items == [] then "" else "\n";
    GapText(g, first, blocks == []);
    PlainsEmpty(ls);
    if blocks == [] {
      if ls != [] {
        SegmentsPlains(lead, ls, []);
        assert Plains(ls) + [] == Plains(ls);
        assert lead + Join(ls) + "" == g;
      } else {
        assert g == "";
      }
      GapsOfText(g);
      assert gaps == [g];
    } else {
      assert Aligned(gaps[1..], false);
      GapsOfDocItems(gaps[1..], blocks[1..], false);
      var tail := DocItems(gaps[1..], blocks[1..], false);
      var rest := [Marked(blocks[0])] + tail;
      assert rest[1..] == tail && items == Plains(ls) + rest;
      if ls != [] {
        SegmentsPlains(lead, ls, rest);
        assert lead + Join(ls) + "\n" == g;
      } else {
        assert Plains(ls) + rest == rest;
        assert lead + "" + "" == g && lead == g;
      }
      var nl := if tail == [] then "" else "\n";
      assert SegmentsFrom(lead, items) == SegmentsFrom(g, rest);
      assert SegmentsFrom(g, rest) == TextIfAny(g) + [Gen(blocks[0])] + SegmentsFrom(nl, tail);
      GapsBlockThen(g, blocks[0], SegmentsFrom(nl, tail));
    }
  }

  lemma PlainsEmpty(ls: seq<string>)
    ensures Plains(ls) == [] <==> ls == []
  {
  }

  lemma GapsOfText(acc: string)
    ensures Gaps(TextIfAny(acc)) == [acc]
  {
    if acc != "" {
      assert [Text(acc)][1..] == [];
      assert acc + "" == acc;
    }
  }

  lemma GapsBlockThen(acc: string, b: Block, rest: seq<Segment>)
    ensures Gaps(TextIfAny(acc) + [Gen(b)] + rest) == [acc] + Gaps(rest)
  {
    GapsOfText(acc);
    GapsConcat(TextIfAny(acc), [Gen(b)] + rest);
    Assoc(TextIfAny(acc), [Gen(b)], rest);
    assert ([Gen(b)] + rest)[1..] == rest;
    assert acc + "" == acc;
  }

  /** With no block hidden in the text, the gaps read back unchanged as well. */
  lemma ReparseGaps(segs: seq<Segment>)
    requires WellLaidOut(segs) && AllInert(Gaps(segs))
    ensures Gaps(Parse(Render(segs))) == Gaps(segs)
  {
    hide ParseLines, Split, RenderDoc, Inert, Gaps, DocItems;
    var gaps, blocks := Gaps(segs), BlocksOf(segs);
    RenderByGaps(segs);
    SplitDoc(gaps, blocks, true);
    ParseDocItems(gaps, blocks, true);
    GapsOfDocItems(gaps, blocks, true);
  }

  // ------------------------------------------------------------ canonical segments

  /** The one list of segments without empty or adjacent texts that has these gaps and blocks. */
  function Canon(gaps: seq<string>, blocks: seq<Block>): seq<Segment>
    requires |gaps| == |blocks| + 1
    decreases |blocks|
  {
    if blocks == [] then TextIfAny(gaps[0])
    else TextIfAny(gaps[0]) + [Gen(blocks[0])] + Canon(gaps[1..], blocks[1..])
  }

  lemma {:induction false} SegmentsAreCanonical(acc: string, items: seq<Item>)
    ensures var segs := SegmentsFrom(acc, items); segs == Canon(Gaps(segs), BlocksOf(segs))
    decreases |items|
  {
    hide Gaps, BlocksOf;
    var segs := SegmentsFrom(acc, items);
    if items == [] {
      GapsOfText(acc);
      BlocksOfText(acc);
    } else {
      var nl := if |items| > 1 then "\n" else "";
      match items[0] {
        case Plain(l) =>
          SegmentsAreCanonical(acc + l + nl, items[1..]);
        case Marked(b) =>
          SegmentsAreCanonical(nl, items[1..]);
          var rest := SegmentsFrom(nl, items[1..]);
          GapsBlockThen(acc, b, rest);
          BlocksOfBlockThen(acc, b, rest);
          assert Gaps(segs)[1..] == Gaps(rest) && BlocksOf(segs)[1..] == BlocksOf(rest);
      }
    }
  }

  lemma BlocksOfText(acc: string)
    ensures BlocksOf(TextIfAny(acc)) == []
  {
    if acc != "" {
      assert [Text(acc)][1..] == [];
    }
  }

  lemma BlocksOfBlockThen(acc: string, b: Block, rest: seq<Segment>)
    ensures BlocksOf(TextIfAny(acc) + [Gen(b)] + rest) == [b] + BlocksOf(rest)
  {
    BlocksOfText(acc);
    BlocksOfConcat(TextIfAny(acc), [Gen(b)] + rest);
    Assoc(TextIfAny(acc), [Gen(b)], rest);
    assert ([Gen(b)] + rest)[1..] == rest;
  }

  /** Parsing undoes rendering, and not only the other way round: canonical, well
      laid out segments whose text hides no block are parsed back exactly. */
  lemma ParseUndoesRender(segs: seq<Segment>)
    requires WellLaidOut(segs) && AllInert(Gaps(segs)) && segs == Canon(Gaps(segs), BlocksOf(segs))
    ensures Parse(Render(segs)) == segs
  {
    hide Gaps, BlocksOf, Canon, AllInert, WellLaidOut;
    ReparseExactly(segs);
    ReparseGaps(segs);
    SegmentsAreCanonical("", ParseLines(Split(Render(segs))));
  }
}
