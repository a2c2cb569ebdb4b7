/** Whole renders: renderFresh (backend/internal/doc/blocks.go),
    content and plain (backend/internal/doc/engine.go), and how they meet Merge. */
module FreshRenders {
  import opened Lines
  import opened Blocks
  import opened Layout
  import opened Merging
  import opened MergeLaws
  import opened Sync

  /** The layout of a newly generated document. */
  function FreshSegments(blocks: seq<Block>): seq<Segment> {
    if blocks == [] then []
    else if |blocks| == 1 then [Gen(blocks[0]), Text("\n")]
    else [Gen(blocks[0]), Text("\n\n")] + FreshSegments(blocks[1..])
  }

  lemma {:induction false} FreshSnoc(blocks: seq<Block>, b: Block)
    requires blocks != []
    ensures var s := FreshSegments(blocks);
            && |s| == 2 * |blocks|
            && s[|s| - 2..] == [Gen(blocks[|blocks| - 1]), Text("\n")]
            && FreshSegments(blocks + [b]) == s[..|s| - 1] + [Text("\n\n"), Gen(b), Text("\n")]
  {
    var s, all := FreshSegments(blocks), blocks + [b];
    assert all[1..] == blocks[1..] + [b];
    if |blocks| == 1 {
      assert all[1..] == [b];
      assert s[..1] == [Gen(blocks[0])];
    } else {
      FreshSnoc(blocks[1..], b);
      var r := FreshSegments(blocks[1..]);
      var head := [Gen(blocks[0]), Text("\n\n")];
      assert s[..|s| - 1] == head + r[..|r| - 1];
      assert s[|s| - 2..] == r[|r| - 2..];
    }
  }

  method RenderFresh(blocks: seq<Block>) returns (content: string)
    ensures content == Render(FreshSegments(blocks))
  {
    var segs: seq<Segment> := [];
    for i := 0 to |blocks|
      invariant i == 0 ==> segs == []
      invariant i > 0 ==> segs + [Text("\n")] == FreshSegments(blocks[..i])
    {
      ghost var segs0 := segs;
      assert blocks[..i + 1] == blocks[..i] + [blocks[i]];
      if i > 0 {
        FreshSnoc(blocks[..i], blocks[i]);
        assert (segs0 + [Text("\n")])[..|segs0|] == segs0;
        segs := segs + [Text("\n\n")];
      }
      segs := segs + [Gen(blocks[i])];
      if i > 0 {
        assert segs + [Text("\n")] == segs0 + [Text("\n\n"), Gen(blocks[i]), Text("\n")];
      } else {
        assert segs + [Text("\n")] == [Gen(blocks[0]), Text("\n")];
      }
    }
    assert blocks[..|blocks|] == blocks;
    if |blocks| > 0 {
      segs := segs + [Text("\n")];
    }
    content := RenderSegments(segs);
  }

  method RenderSegments(segs: seq<Segment>) returns (s: string)
    ensures s == Render(segs)
  {
    s := "";
    for i := 0 to |segs|
      invariant Render(segs) == s + Render(segs[i..])
    {
      assert segs[i..][0] == segs[i] && segs[i..][1..] == segs[i + 1..];
      Assoc(s, RenderSegment(segs[i]), Render(segs[i + 1..]));
      s := s + RenderSegment(segs[i]);
    }
    assert segs[|segs|..] == [];
  }

  // ----------------------------------------------------- reading a fresh render back

  function FreshGaps(n: nat): (g: seq<string>)
    requires n > 0
    ensures |g| == n + 1
  {
    if n == 1 then ["", "\n"] else [""] + ["\n\n"] + FreshGaps(n - 1)[1..]
  }

  lemma {:induction false} FreshShape(blocks: seq<Block>)
    requires blocks != []
    ensures Gaps(FreshSegments(blocks)) == FreshGaps(|blocks|)
    ensures BlocksOf(FreshSegments(blocks)) == blocks
  {
    hide Gaps, BlocksOf, FreshSegments, FreshGaps;
    if |blocks| == 1 {
      assert [blocks[0]] == blocks;
      FreshOneShape(blocks[0]);
    } else {
      var r := FreshSegments(blocks[1..]);
      FreshShape(blocks[1..]);
      FreshMore(blocks);
      GapsTail(blocks[0], "\n\n");
      BlocksOfTail(blocks[0], "\n\n");
      GapsConcat([Gen(blocks[0]), Text("\n\n")], r);
      BlocksOfConcat([Gen(blocks[0]), Text("\n\n")], r);
      FreshGlue(|blocks|);
      assert [blocks[0]] + blocks[1..] == blocks;
    }
  }

  lemma FreshOneShape(b: Block)
    ensures Gaps(FreshSegments([b])) == FreshGaps(1) && BlocksOf(FreshSegments([b])) == [b]
  {
    hide Gaps, BlocksOf;
    GapsTail(b, "\n");
    BlocksOfTail(b, "\n");
  }

  lemma FreshMore(blocks: seq<Block>)
    requires |blocks| > 1
    ensures FreshSegments(blocks) == [Gen(blocks[0]), Text("\n\n")] + FreshSegments(blocks[1..])
  {
  }

  lemma BlocksOfTail(b: Block, s: string)
    ensures BlocksOf([Gen(b), Text(s)]) == [b]
  {
    assert [Gen(b), Text(s)][1..] == [Text(s)] && [Text(s)][1..] == [];
    assert BlocksOf([Text(s)]) == [];
  }

  lemma FreshGlue(n: nat)
    requires n > 1
    ensures Glue(["", "\n\n"], FreshGaps(n - 1)) == FreshGaps(n)
  {
    var g := FreshGaps(n - 1);
    FreshGapValues(n - 1);
    assert ["", "\n\n"][..1] == [""];
    assert "\n\n" + "" == "\n\n";
  }

  lemma {:induction false} FreshGapValues(n: nat)
    requires n > 0
    ensures FreshGaps(n)[0] == "" && FreshGaps(n)[n] == "\n"
    ensures forall i :: 0 < i < n ==> FreshGaps(n)[i] == "\n\n"
  {
    if n > 1 {
      FreshGapValues(n - 1);
      forall i | 0 < i <= n ensures FreshGaps(n)[i] == if i == n then "\n" else "\n\n" {
        if i > 1 {
          assert FreshGaps(n)[i] == FreshGaps(n - 1)[i - 1];
        }
      }
    }
  }

  lemma {:induction false} FreshIsCanonical(blocks: seq<Block>)
    requires blocks != []
    ensures FreshSegments(blocks) == Canon(FreshGaps(|blocks|), blocks)
  {
    hide Canon;
    var g := FreshGaps(|blocks|);
    FreshGapValues(|blocks|);
    if |blocks| == 1 {
      assert g == ["", "\n"];
      CanonOne(blocks[0]);
      assert blocks == [blocks[0]];
    } else {
      FreshIsCanonical(blocks[1..]);
      var g1 := FreshGaps(|blocks| - 1);
      FreshGapValues(|blocks| - 1);
      assert g[1..] == ["\n\n"] + g1[1..];
      CanonLead(g1, blocks[1..]);
      CanonFirst(g, blocks);
      Assoc([Gen(blocks[0])], [Text("\n\n")], FreshSegments(blocks[1..]));
    }
  }

  lemma CanonOne(b: Block)
    ensures Canon(["", "\n"], [b]) == [Gen(b), Text("\n")]
  {
    assert ["", "\n"][1..] == ["\n"] && [b][1..] == [];
    assert Canon(["\n"], []) == [Text("\n")];
  }

  lemma CanonFirst(g: seq<string>, blocks: seq<Block>)
    requires |g| == |blocks| + 1 && g[0] == "" && blocks != []
    ensures Canon(g, blocks) == [Gen(blocks[0])] + Canon(g[1..], blocks[1..])
  {
    assert [] + [Gen(blocks[0])] == [Gen(blocks[0])];
  }

  lemma CanonLead(g: seq<string>, blocks: seq<Block>)
    requires |g| == |blocks| + 1 && g[0] == "" && blocks != []
    ensures Canon(["\n\n"] + g[1..], blocks) == [Text("\n\n")] + Canon(g, blocks)
  {
    var h := ["\n\n"] + g[1..];
    assert h[1..] == g[1..];
    Assoc([Text("\n\n")], [Gen(blocks[0])], Canon(g[1..], blocks[1..]));
    assert [] + [Gen(blocks[0])] == [Gen(blocks[0])];
  }

  /** A fresh render parses to exactly the blocks it was built from. */
  lemma FreshParses(blocks: seq<Block>)
    requires ValidDoc(blocks)
    ensures Parse(Render(FreshSegments(blocks))) == FreshSegments(blocks)
    ensures BlocksOf(FreshSegments(blocks)) == blocks
  {
    hide Parse, Inert, ValidDoc;
    if blocks == [] {
      ParseOfEmpty();
    } else {
      var s, n := FreshSegments(blocks), |blocks|;
      FreshShape(blocks);
      FreshGapValues(n);
      FreshIsCanonical(blocks);
      GoodEmpty(BlockFree);
      var g := Gaps(s);
      forall i | 0 <= i < |g| ensures GapOk(g[i], i == 0, i == |g| - 1) && Inert(g[i]) {
      }
      ParseUndoesRender(s);
    }
  }

  lemma ParseOfEmpty()
    ensures Parse("") == []
  {
    EmptyLineIsPlain();
    var items := [Plain("")];
    assert items[1..] == [];
    assert "" + "" + "" == "";
  }

  // -------------------------------------------------------- merging and fresh renders

  lemma {:induction false} AddFreshToEmpty(out: seq<Segment>, render: seq<Block>, i: nat)
    requires i <= |render| && DistinctKeys(render)
    requires out == FreshSegments(render[..i])
    ensures AddFresh(out, {}, render, i) == FreshSegments(render)
    decreases |render| - i
  {
    hide Keys;
    if i == |render| {
      assert render[..i] == render;
    } else {
      FreshKeys(render, i);
      InsertNext(out, render, i);
      AddFreshToEmpty(Insert(out, Anchor(out, render, i), render[i]), render, i + 1);
    }
  }

  lemma InsertNext(out: seq<Segment>, render: seq<Block>, i: nat)
    requires i < |render| && DistinctKeys(render)
    requires out == FreshSegments(render[..i])
    ensures Insert(out, Anchor(out, render, i), render[i]) == FreshSegments(render[..i + 1])
  {
    hide FreshSegments;
    assert render[..i + 1] == render[..i] + [render[i]];
    if i == 0 {
      FreshOne(render[0]);
      assert render[..1] == [render[0]] && render[..0] == [];
      assert out == [];
    } else {
      var at := |out| - 1;
      FreshSnoc(render[..i], render[i]);
      LastBlockAnchor(out, render, i);
      assert out[at..] == [Text("\n")] by { assert out[|out| - 2..][1] == out[at]; }
      assert out[..at] + [Text("\n\n"), Gen(render[i])] + [Text("\n")]
          == out[..at] + [Text("\n\n"), Gen(render[i]), Text("\n")];
    }
  }

  lemma FreshOne(b: Block)
    ensures FreshSegments([]) == [] && FreshSegments([b]) == [Gen(b), Text("\n")]
  {
  }

  lemma {:induction false} FreshBlockAt(blocks: seq<Block>, i: nat)
    requires i < |FreshSegments(blocks)|
    ensures |FreshSegments(blocks)| == 2 * |blocks|
    ensures FreshSegments(blocks)[i].Gen? <==> i % 2 == 0
    ensures i % 2 == 0 ==> FreshSegments(blocks)[i].block == blocks[i / 2]
  {
    if |blocks| > 1 {
      FreshSnoc(blocks, blocks[0]);
      if i >= 2 {
        FreshBlockAt(blocks[1..], i - 2);
      }
    }
  }

  lemma FreshKeys(render: seq<Block>, i: nat)
    requires i < |render| && DistinctKeys(render)
    ensures render[i].key !in Keys(FreshSegments(render[..i]))
  {
    var s := FreshSegments(render[..i]);
    if render[i].key in Keys(s) {
      var k :| 0 <= k < |s| && s[k].Gen? && s[k].block.key == render[i].key;
      FreshBlockAt(render[..i], k);
      assert false;
    }
  }

  lemma LastBlockAnchor(out: seq<Segment>, render: seq<Block>, i: nat)
    requires 0 < i <= |render| && DistinctKeys(render) && out == FreshSegments(render[..i])
    ensures |out| == 2 * i && Anchor(out, render, i) == |out| - 1
  {
    FreshSnoc(render[..i], render[0]);
    var idx := BlockIndexFrom(out, render[i - 1].key, 0);
    FreshBlockAt(render[..i], 2 * i - 2);
    if idx >= 0 {
      FreshBlockAt(render[..i], idx);
      assert out[idx].block == render[idx / 2];
    }
  }

  lemma MergeDistinct(hash: Hasher, render: seq<Block>)
    requires DistinctKeys(render)
    ensures Merged(hash, [], {}, render) == FreshSegments(render)
  {
    assert render[..0] == [];
    AddFreshToEmpty([], render, 0);
  }

  lemma CountTwice(key: string, segs: seq<Segment>, a: nat, b: nat)
    requires a < b < |segs| && segs[a].Gen? && segs[b].Gen? && segs[a].block.key == segs[b].block.key == key
    ensures Count(key, segs) >= 2
  {
    hide Count;
    assert segs == segs[..b] + segs[b..];
    CountConcat(key, segs[..b], segs[b..]);
    assert segs[..b][a] == segs[a] && segs[b..][0] == segs[b];
    CountKeys(key, segs[..b]);
    CountKeys(key, segs[b..]);
  }

  /** A key that is twice in the render is once in what is merged into nothing. */
  lemma RepeatedKeyIsLost(hash: Hasher, render: seq<Block>)
    requires BlocksOf(Merged(hash, [], {}, render)) == render
    ensures DistinctKeys(render)
  {
    hide Merged, Count, FreshSegments;
    var out := Merged(hash, [], {}, render);
    forall i, j | 0 <= i < j < |render| ensures render[i].key != render[j].key {
      if render[i].key == render[j].key {
        var key := render[i].key;
        MergeKeyCount(hash, [], {}, render, key);
        NoneCounted(key);
        CountSame(key, out, FreshSegments(render));
        FreshBlocks(render);
        FreshBlockIndex(render, i);
        FreshBlockIndex(render, j);
        CountTwice(key, FreshSegments(render), 2 * i, 2 * j);
        assert false;
      }
    }
  }

  lemma NoneCounted(key: string)
    ensures Count(key, []) == 0
  {
  }

  lemma {:induction false} CountOfBlocks(key: string, segs: seq<Segment>)
    ensures Count(key, segs) == Count(key, Gens(BlocksOf(segs)))
  {
    if segs != [] {
      CountOfBlocks(key, segs[1..]);
      var rest := Gens(BlocksOf(segs[1..]));
      if segs[0].Gen? {
        assert BlocksOf(segs)[1..] == BlocksOf(segs[1..]);
        var all := Gens(BlocksOf(segs));
        assert all[0] == segs[0] && all[1..] == rest;
      } else {
        assert BlocksOf(segs) == BlocksOf(segs[1..]);
      }
    }
  }

  lemma CountSame(key: string, a: seq<Segment>, b: seq<Segment>)
    ensures BlocksOf(a) == BlocksOf(b) ==> Count(key, a) == Count(key, b)
  {
    hide Count, BlocksOf, Gens;
    CountOfBlocks(key, a);
    CountOfBlocks(key, b);
  }

  lemma FreshBlocks(blocks: seq<Block>)
    ensures BlocksOf(FreshSegments(blocks)) == blocks
  {
    if blocks != [] {
      FreshShape(blocks);
    }
  }

  lemma {:induction false} FreshBlockIndex(blocks: seq<Block>, i: nat)
    requires i < |blocks|
    ensures |FreshSegments(blocks)| == 2 * |blocks| && FreshSegments(blocks)[2 * i] == Gen(blocks[i])
  {
    FreshLength(blocks);
    FreshBlockAt(blocks, 2 * i);
  }

  lemma {:induction false} FreshLength(blocks: seq<Block>)
    ensures |FreshSegments(blocks)| == 2 * |blocks|
  {
    if |blocks| > 1 {
      FreshLength(blocks[1..]);
    }
  }

  /** Merging a render into an empty document writes the fresh render exactly when
      no key occurs twice in it. */
  lemma MergeIntoEmpty(hash: Hasher, render: seq<Block>)
    requires ValidDoc(render)
    ensures Merged(hash, [], {}, render) == FreshSegments(render) <==> DistinctKeys(render)
    ensures SyncText(hash, "", {}, render) == Render(FreshSegments(render)) <==> DistinctKeys(render)
  {
    hide Parse, Merged, FreshSegments, DistinctKeys, BlocksOf, Gaps, WellLaidOut, ValidDoc;
    ParseOfEmpty();
    if DistinctKeys(render) {
      MergeDistinct(hash, render);
    }
    if Render(Merged(hash, [], {}, render)) == Render(FreshSegments(render)) {
      EmptyVanishesNothing(render);
      MergeReparses(hash, "", {}, render);
      FreshParses(render);
      RepeatedKeyIsLost(hash, render);
    }
  }

  lemma EmptyVanishesNothing(render: seq<Block>)
    ensures NothingVanished("", render)
  {
    ParseOfEmpty();
    KeysEmpty();
  }

  ghost predicate SameKeys(a: seq<Block>, b: seq<Block>) {
    |a| == |b| && forall i :: 0 <= i < |a| ==> a[i].key == b[i].key
  }

  lemma {:induction false} KeepFresh(hash: Hasher, fm: map<string, Block>, before: seq<Block>, after: seq<Block>)
    requires SameKeys(before, after) && Unedited(hash, before)
    requires forall i :: 0 <= i < |after| ==> after[i].key in fm && fm[after[i].key] == after[i]
    ensures Keep(hash, fm, FreshSegments(before)) == FreshSegments(after)
  {
    hide KeepOne;
    if before != [] {
      var s, sep := FreshSegments(before), Text(if |before| == 1 then "\n" else "\n\n");
      var rest := s[2..];
      assert s == [Gen(before[0]), sep] + rest;
      KeepTwo(hash, fm, before[0], sep, rest);
      if |before| > 1 {
        assert rest == FreshSegments(before[1..]);
        KeepFresh(hash, fm, before[1..], after[1..]);
      } else {
        assert rest == [];
      }
    }
  }

  lemma KeepTwo(hash: Hasher, fm: map<string, Block>, b: Block, sep: Segment, rest: seq<Segment>)
    requires b.key in fm && !b.Edited(hash) && sep.Text?
    ensures Keep(hash, fm, [Gen(b), sep] + rest) == [Gen(fm[b.key]), sep] + Keep(hash, fm, rest)
  {
    var s := [Gen(b), sep] + rest;
    assert s[1..] == [sep] + rest && s[1..][1..] == rest;
    assert Keep(hash, fm, s[1..]) == [sep] + Keep(hash, fm, rest);
    Assoc([Gen(fm[b.key])], [sep], Keep(hash, fm, rest));
  }

  /** Every block of the render is the one its index holds. */
  ghost predicate Indexed(render: seq<Block>) {
    forall i :: 0 <= i < |render| ==> ByKey(render)[render[i].key] == render[i]
  }

  /** Refreshing an untouched document with new bodies for the same keys raises no
      conflict, and writes the new render exactly when blocks with one key are equal
      in it. */
  lemma RefreshUntouched(hash: Hasher, before: seq<Block>, after: seq<Block>)
    requires BlockRender(hash, before) && ValidDoc(after) && SameKeys(before, after)
    ensures var content := Render(FreshSegments(before));
            && (SyncText(hash, content, RenderKeys(before), after) == Render(FreshSegments(after)) <==> Indexed(after))
            && Conflicts(hash, ByKey(after), Parse(content)) == []
  {
    hide Parse, ByKey, Merged, FreshSegments, Conflicts, ValidDoc;
    FreshParses(before);
    var latest := LastOfKey(after);
    LastOfKeyIsValid(after);
    MergeFresh(hash, before, after);
    FreshParses(latest);
    FreshParses(after);
    assert latest == after <==> Indexed(after);
    FreshHasNoConflicts(hash, ByKey(after), before);
  }

  /** Each block replaced by the last one with its key. */
  ghost function LastOfKey(render: seq<Block>): (r: seq<Block>)
    ensures |r| == |render|
  {
    seq(|render|, i requires 0 <= i < |render| => ByKey(render)[render[i].key])
  }

  lemma LastOfKeyIsValid(render: seq<Block>)
    requires ValidDoc(render)
    ensures ValidDoc(LastOfKey(render))
  {
    hide WfBlock;
    var r := LastOfKey(render);
    forall i | 0 <= i < |r| ensures WfBlock(r[i]) {
      assert r[i] in render;
    }
  }

  lemma MergeFresh(hash: Hasher, before: seq<Block>, after: seq<Block>)
    requires Unedited(hash, before) && SameKeys(before, after)
    ensures Merged(hash, FreshSegments(before), RenderKeys(before), after) == FreshSegments(LastOfKey(after))
  {
    hide FreshSegments, ByKey;
    ByKeyKeys(after);
    KeepFresh(hash, ByKey(after), before, LastOfKey(after));
    forall k | 0 <= k < |after| ensures after[k].key in RenderKeys(before) {
      assert before[k].key == after[k].key;
    }
    AddFreshAllOld(FreshSegments(LastOfKey(after)), RenderKeys(before), after, 0);
  }

  lemma FreshHasNoConflicts(hash: Hasher, fm: map<string, Block>, blocks: seq<Block>)
    requires Unedited(hash, blocks)
    ensures Conflicts(hash, fm, FreshSegments(blocks)) == []
  {
    hide FreshSegments;
    var s := FreshSegments(blocks);
    forall i | 0 <= i < |s| && s[i].Gen? ensures !s[i].block.Edited(hash) {
      FreshBlockAt(blocks, i);
    }
    NoConflicts(hash, fm, s);
  }
}
