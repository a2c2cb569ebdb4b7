/** Where the two assumptions of the sync fixpoint come from: without them it fails. */
module SyncLimits {
  import opened Lines
  import opened Blocks
  import opened Layout
  import opened Merging
  import opened MergeLaws
  import opened Sync

  const STRAY := OpenMarker("a", "000000000000")

  /** A stray opening marker, an untouched block, and a stray closing marker. */
  function StrayContent(b: Block): string {
    Join([STRAY] + BlockLines(b) + ["y", CLOSE])
  }

  /** The same document after the block has vanished upstream. */
  function StrayAfter(): string { Join([STRAY, "", "y", CLOSE]) }

  lemma StrayFacts()
    ensures MatchOpen(STRAY) == Some(("a", "000000000000")) && '\n' !in STRAY
    ensures !IsOpen("y") && !IsOpen("") && !IsOpen(CLOSE) && '\n' !in CLOSE
  {
    MatchOpenMarker("a", "000000000000");
  }

  lemma StrayParses(b: Block)
    requires WfBlock(b)
    ensures Parse(StrayContent(b)) == [Text(STRAY + "\n"), Gen(b), Text("\n" + "y" + "\n" + CLOSE)]
  {
    hide MatchOpen, BlockLines, CLOSE, STRAY, Split, Join;
    StrayFacts();
    var tail := ["y", CLOSE];
    var rest := BlockLines(b) + tail;
    var ls := [STRAY] + BlockLines(b) + tail;
    assert ls == [STRAY] + rest;
    BlockLinesClean(b);
    SplitJoin(ls);
    BlockLinesBarrier(b, tail);
    ParseBarrier([STRAY], rest);
    ParseBlockLines(b, tail);
    LonePlain(STRAY);
    TwoPlain("y", CLOSE);
    var items := [Plain(STRAY), Marked(b), Plain("y"), Plain(CLOSE)];
    assert ParseLines(ls) == items;
    assert items[1..] == [Marked(b), Plain("y"), Plain(CLOSE)];
    assert items[1..][1..] == [Plain("y"), Plain(CLOSE)];
    FourItems(STRAY, b, "y", CLOSE);
  }

  lemma FourItems(l: string, b: Block, y: string, z: string)
    requires l != ""
    ensures SegmentsFrom("", [Plain(l), Marked(b), Plain(y), Plain(z)])
            == [Text(l + "\n"), Gen(b), Text("\n" + y + "\n" + z)]
  {
    var items := [Plain(l), Marked(b), Plain(y), Plain(z)];
    assert items[1..] == [Marked(b), Plain(y), Plain(z)];
    assert items[1..][1..] == [Plain(y), Plain(z)];
    assert [Plain(y), Plain(z)][1..] == [Plain(z)];
    assert [Plain(z)][1..] == [];
    assert "" + l + "\n" == l + "\n";
    var t := "\n" + y + "\n" + z;
    assert t + "" == t;
    assert SegmentsFrom("\n" + y + "\n", [Plain(z)]) == TextIfAny(t);
    assert SegmentsFrom("\n", [Plain(y), Plain(z)]) == [Text(t)];
    assert SegmentsFrom(l + "\n", items[1..]) == [Text(l + "\n")] + [Gen(b)] + [Text(t)];
  }

  lemma BlockLinesClean(b: Block)
    requires WfBlock(b)
    ensures NoNewlines(BlockLines(b))
  {
    hide OpenMarker, CLOSE, Split;
    MatchOpenMarker(b.key, b.hash);
    StrayFacts();
    SplitHasNoNewlines(b.body);
  }

  lemma LonePlain(l: string)
    ensures ParseLines([l]) == [Plain(l)]
  {
    hide MatchOpen;
    assert [l][1..] == [] && ParseLines([]) == [];
  }

  lemma TwoPlain(x: string, y: string)
    requires !IsOpen(x) && !IsOpen(y)
    ensures ParseLines([x, y]) == [Plain(x), Plain(y)]
  {
    hide MatchOpen;
    assert [x, y][1..] == [y];
    LonePlain(y);
  }

  /** The text left behind has become a block that was never generated. */
  lemma StrayAfterParses()
    ensures Parse(StrayAfter()) == [Gen(Block("a", "000000000000", "\ny"))]
  {
    hide MatchOpen, CLOSE, STRAY, Split, Join;
    StrayFacts();
    var ls := [STRAY, "", "y", CLOSE];
    SplitJoin(ls);
    var rest := ["", "y", CLOSE];
    assert ls[1..] == rest;
    assert FindClose(rest, 2) == Some(2);
    OpenIsNotClose("");
    YIsNotClose();
    assert FindClose(rest, 1) == Some(2);
    assert FindClose(rest, 0) == Some(2);
    assert rest[..2] == ["", "y"] && rest[3..] == [];
    JoinTwo();
    assert ParseLines(ls) == [Marked(Block("a", "000000000000", "\ny"))] + ParseLines([]);
    var items := [Marked(Block("a", "000000000000", "\ny"))];
    assert items[1..] == [];
    assert SegmentsFrom("", items) == [] + [Gen(items[0].block)] + SegmentsFrom("", []);
  }

  lemma YIsNotClose()
    ensures "y" != CLOSE
  {
  }

  lemma JoinTwo()
    ensures Join(["", "y"]) == "\ny"
  {
    JoinSingle("y");
    assert ["", "y"][1..] == ["y"];
  }

  /** A stray opening marker in human text defeats the fixpoint: once the untouched
      block behind it vanishes upstream, the stray marker captures the text up to a
      stray closing marker, and the next sync of the same render rewrites it. */
  lemma StrayOpenerBreaksFixpoint(hash: Hasher, prev: set<string>)
    ensures var once := SyncText(hash, StrayContent(Block("b", hash("x"), "x")), prev, []);
            once == StrayAfter() && SyncText(hash, once, {}, []) != once
  {
    hide Parse, StrayContent, CLOSE, STRAY;
    var b := Block("b", hash("x"), "x");
    SplitSingle("x");
    assert ValidMark(b);
    XIsPlain();
    var content := StrayContent(b);
    StrayParses(b);
    var segs := Parse(content);
    KeepDropsBlock(hash, segs);
    var first := Text(STRAY + "\n");
    var last := Text("\n" + "y" + "\n" + CLOSE);
    assert Merged(hash, segs, prev, []) == [first, last];
    RenderPair(first, last);
    assert SyncText(hash, content, prev, []) == StrayAfter();
    StrayAfterParses();
    SecondSyncShrinks(hash);
  }

  lemma XIsPlain()
    ensures !IsOpen("x")
  {
  }

  lemma KeepDropsBlock(hash: Hasher, segs: seq<Segment>)
    requires |segs| == 3 && segs[0].Text? && segs[1].Gen? && segs[2].Text? && !segs[1].block.Edited(hash)
    ensures Keep(hash, map[], segs) == [segs[0], segs[2]]
  {
    assert segs[1..] == [segs[1], segs[2]];
    assert segs[1..][1..] == [segs[2]];
    assert Keep(hash, map[], [segs[2]]) == [segs[2]] + Keep(hash, map[], [segs[2]][1..]);
  }

  lemma RenderPair(first: Segment, last: Segment)
    requires first == Text(STRAY + "\n") && last == Text("\n" + "y" + "\n" + CLOSE)
    ensures Render([first, last]) == StrayAfter()
  {
    hide CLOSE, STRAY, Join;
    assert [first, last][1..] == [last] && [last][1..] == [];
    assert Render([last]) == last.text + "";
    assert Render([first, last]) == first.text + last.text;
    JoinFour(STRAY, "y", CLOSE);
  }

  lemma JoinFour(a: string, y: string, z: string)
    ensures Join([a, "", y, z]) == (a + "\n") + ("\n" + y + "\n" + z)
  {
    hide Join;
    JoinPair(y, z);
    JoinPair(a, "");
    JoinConcat([a, ""], [y, z]);
    assert [a, ""] + [y, z] == [a, "", y, z];
    var m := y + "\n" + z;
    assert a + "\n" + "" + "\n" + m == (a + "\n") + ("\n" + m);
    assert "\n" + m == "\n" + y + "\n" + z;
  }

  lemma JoinPair(x: string, y: string)
    ensures Join([x, y]) == x + "\n" + y
  {
    assert [x, y][1..] == [y];
    JoinSingle(y);
  }

  lemma SecondSyncShrinks(hash: Hasher)
    ensures SyncText(hash, StrayAfter(), {}, []) != StrayAfter()
  {
    hide Parse, StrayAfter, Keep;
    StrayAfterParses();
    DroppedOrDetached(hash, Block("a", "000000000000", "\ny"));
    StrayAfterIsLong();
  }

  lemma DroppedOrDetached(hash: Hasher, b: Block)
    ensures var r := Render(Keep(hash, map[], [Gen(b)])); r == "" || r == b.body
  {
    hide Render, KeepOne;
    assert [Gen(b)][1..] == [] && Keep(hash, map[], []) == [];
    assert Keep(hash, map[], [Gen(b)]) == KeepOne(hash, map[], Gen(b));
    RenderKeptBlock(hash, b);
  }

  lemma RenderKeptBlock(hash: Hasher, b: Block)
    ensures var r := Render(KeepOne(hash, map[], Gen(b))); r == "" || r == b.body
  {
    hide RenderBlock;
    if b.Edited(hash) {
      assert [Text(b.body)][1..] == [];
      assert Render([Text(b.body)]) == b.body + "";
    }
  }

  lemma StrayAfterIsLong()
    ensures |StrayAfter()| > 2
  {
    hide STRAY;
    var ls := [STRAY, "", "y", CLOSE];
    assert ls[1..] == ["", "y", CLOSE] && ls[1..][1..] == ["y", CLOSE];
    assert |Join(ls)| == |STRAY| + 1 + |Join(ls[1..])|;
    assert |Join(ls[1..])| == 1 + |Join(["y", CLOSE])|;
    assert |Join(["y", CLOSE])| >= 1;
  }

  lemma TwiceKeyed(b1: Block, b2: Block)
    requires b1.key == b2.key
    ensures ByKey([b1, b2]) == map[b1.key := b2] && RenderKeys([b1, b2]) == {b1.key}
  {
    var render := [b1, b2];
    assert render[..1] == [b1] && [b1][..0] == [];
    assert render[0] == b1 && render[1] == b2;
  }

  lemma FirstIsInserted(b1: Block, b2: Block)
    requires b1.key == b2.key
    ensures AddFresh([], {}, [b1, b2], 0) == [Gen(b1), Text("\n")]
  {
    var render, once := [b1, b2], [Gen(b1), Text("\n")];
    assert Anchor([], render, 0) == 0;
    assert Insert([], 0, b1) == once;
    KeysEmpty();
    assert once[0] == Gen(b1);
    assert b1.key in Keys(once);
    assert AddFresh(once, {}, render, 1) == once;
  }

  lemma KeepPair(hash: Hasher, fm: map<string, Block>, b: Block)
    requires b.key in fm && !b.Edited(hash)
    ensures Keep(hash, fm, [Gen(b), Text("\n")]) == [Gen(fm[b.key]), Text("\n")]
  {
    var segs := [Gen(b), Text("\n")];
    assert segs[1..] == [Text("\n")] && [Text("\n")][1..] == [];
    assert Keep(hash, fm, [Text("\n")]) == [Text("\n")];
  }

  /** Two fresh blocks with one key defeat it too: the first is inserted, the next
      sync replaces it with the last, and only then the document is settled. */
  lemma DuplicateKeyBreaksFixpoint(hash: Hasher, b1: Block, b2: Block)
    requires b1.key == b2.key && b1 != b2 && !b1.Edited(hash) && !b2.Edited(hash)
    ensures var render := [b1, b2];
            var once := Merged(hash, [], {}, render);
            && once == [Gen(b1), Text("\n")]
            && Merged(hash, once, RenderKeys(render), render) == [Gen(b2), Text("\n")]
            && Merged(hash, [Gen(b2), Text("\n")], RenderKeys(render), render) == [Gen(b2), Text("\n")]
  {
    hide ByKey, RenderKeys;
    var render := [b1, b2];
    TwiceKeyed(b1, b2);
    FirstIsInserted(b1, b2);
    KeepPair(hash, ByKey(render), b1);
    KeepPair(hash, ByKey(render), b2);
    AddFreshAllOld([Gen(b2), Text("\n")], RenderKeys(render), render, 0);
  }
}
