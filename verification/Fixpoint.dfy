/** When a second sync with the same render changes nothing: exact conditions, for
    any document and any render (backend/internal/doc/ownership.go). */
module Fixpoints {
  import opened Lines
  import opened Blocks
  import opened Layout
  import opened Merging
  import opened MergeLaws
  import opened Sync

  // ---------------------------- a merge that keeps the string keeps every block

  lemma CancelPrefix(t: string, x: string, y: string)
    requires t + x == t + y
    ensures x == y
  {
    assert (t + x)[|t|..] == x && (t + y)[|t|..] == y;
  }

  ghost predicate BreaksLine(r: string) { r == "" || StartsNL(r) }

  lemma AfterBlock(segs: seq<Segment>)
    requires Aligned(Gaps(segs), false)
    ensures BreaksLine(Render(segs))
  {
    hide Gaps, Render;
    RenderByGaps(segs);
    RestStartsNL(Gaps(segs), BlocksOf(segs));
  }

  lemma TidyRest(gaps: seq<string>)
    requires gaps != [] && Tidy(AnyText, "", gaps, false)
    ensures Aligned(gaps, false)
  {
    assert "" + gaps[0] == gaps[0];
    assert ["" + gaps[0]] + gaps[1..] == gaps;
  }

  /** The lines of a block and what follows it. */
  lemma BlockFirst(b: Block, r: string)
    requires ValidMark(b) && BreaksLine(r)
    ensures Split(RenderBlock(b) + r) == BlockLines(b) + Split(r)[1..]
  {
    hide Split, RenderBlock, BlockLines;
    RenderBlockLines(b);
    GapSplit(r);
    SplitEmpty();
    BlockThenRest(RenderBlock(b), r, Split(r)[1..], BlockLines(b));
  }

  lemma FirstLineOpens(b: Block, r: string)
    requires ValidMark(b) && BreaksLine(r)
    ensures Split(RenderBlock(b) + r) != [] && IsOpen(Split(RenderBlock(b) + r)[0])
  {
    hide Split, RenderBlock;
    BlockFirst(b, r);
    MatchOpenMarker(b.key, b.hash);
  }

  lemma DroppedDiffers(b: Block, r: string, r': string)
    requires ValidMark(b) && BreaksLine(r) && BreaksLine(r')
    ensures r' != RenderBlock(b) + r
  {
    hide Split, RenderBlock, IsOpen;
    FirstLineOpens(b, r);
    GapSplit(r');
    SplitEmpty();
    OpenIsNotClose("");
  }

  lemma DetachedDiffers(b: Block, r: string, r': string)
    requires WfBlock(b) && BreaksLine(r) && BreaksLine(r')
    ensures b.body + r' != RenderBlock(b) + r
  {
    hide Split, RenderBlock, IsOpen;
    FirstLineOpens(b, r);
    assert !IsOpen(Split(b.body)[0]);
    if r' == "" {
      assert b.body + r' == b.body;
    } else {
      SplitConcat(b.body, r'[1..]);
      assert b.body + r' == b.body + "\n" + r'[1..];
    }
  }

  lemma ReplacedDiffers(b: Block, c: Block, r: string, r': string)
    requires WfBlock(b) && WfBlock(c) && BreaksLine(r) && BreaksLine(r')
    requires RenderBlock(c) + r' == RenderBlock(b) + r
    ensures b == c
  {
    hide Split, RenderBlock, BlockLines, ParseLines, WfBlock;
    assert ValidMark(b) && ValidMark(c) by { WfIsValid(b); WfIsValid(c); }
    BlockFirst(b, r);
    BlockFirst(c, r');
    ParseBlockLines(b, Split(r)[1..]);
    ParseBlockLines(c, Split(r')[1..]);
    assert ([Marked(b)] + ParseLines(Split(r)[1..]))[0] == Marked(b);
    assert ([Marked(c)] + ParseLines(Split(r')[1..]))[0] == Marked(c);
  }

  lemma WfIsValid(b: Block)
    requires WfBlock(b)
    ensures ValidMark(b)
  {
  }

  ghost predicate WfIndex(fm: map<string, Block>) {
    forall k :: k in fm ==> fm[k].key == k && WfBlock(fm[k])
  }

  lemma RenderFirst(one: Segment, rest: seq<Segment>)
    ensures Render([one] + rest) == RenderSegment(one) + Render(rest)
  {
    assert ([one] + rest)[1..] == rest;
  }

  /** If merging leaves the string as it was, every block was left as it was. */
  lemma {:induction false} KeepFixed(hash: Hasher, fm: map<string, Block>, segs: seq<Segment>, pre: string, first: bool)
    requires WfSegments(segs) && WfIndex(fm) && Tidy(AnyText, pre, Gaps(segs), first)
    requires Render(Keep(hash, fm, segs)) == Render(segs)
    ensures Settled(hash, fm, segs)
    decreases |segs|
  {
    hide Tidy, Gaps, WfBlock, Render, KeepOne, SettledBlock;
    if segs != [] {
      var rest := segs[1..];
      assert segs == [segs[0]] + rest && WfSegments(rest);
      RenderFirst(segs[0], rest);
      match segs[0] {
        case Text(t) =>
          GapsFirst(segs);
          TidyPrefix(AnyText, pre, t, Gaps(rest), first);
          KeepFixedText(hash, fm, t, rest);
          KeepFixed(hash, fm, rest, pre + t, first);
        case Gen(b) =>
          GapsFirst(segs);
          TidyBlock(AnyText, pre, Gaps(rest), first);
          KeepFixedBlock(hash, fm, b, rest);
          KeepFixed(hash, fm, rest, "", false);
      }
    }
  }

  lemma GapsFirst(segs: seq<Segment>)
    requires segs != []
    ensures var g := Gaps(segs[1..]);
            Gaps(segs) == if segs[0].Text? then [segs[0].text + g[0]] + g[1..] else [""] + g
  {
  }

  lemma KeepFixedText(hash: Hasher, fm: map<string, Block>, t: string, rest: seq<Segment>)
    requires Render(KeepOne(hash, fm, Text(t)) + Keep(hash, fm, rest)) == t + Render(rest)
    ensures Render(Keep(hash, fm, rest)) == Render(rest)
  {
    hide Render, Keep;
    RenderFirst(Text(t), Keep(hash, fm, rest));
    CancelPrefix(t, Render(Keep(hash, fm, rest)), Render(rest));
  }

  lemma KeepFixedBlock(hash: Hasher, fm: map<string, Block>, b: Block, rest: seq<Segment>)
    requires WfBlock(b) && WfSegments(rest) && WfIndex(fm) && Tidy(AnyText, "", Gaps(rest), false)
    requires Render(KeepOne(hash, fm, Gen(b)) + Keep(hash, fm, rest)) == RenderBlock(b) + Render(rest)
    ensures SettledBlock(hash, fm, b) && Render(Keep(hash, fm, rest)) == Render(rest)
  {
    hide Tidy, Gaps, WfBlock, Render, RenderBlock, Keep;
    var kept := Keep(hash, fm, rest);
    KeepIsTidy(AnyText, hash, fm, rest, "", false);
    TidyRest(Gaps(rest));
    TidyRest(Gaps(kept));
    AfterBlock(rest);
    AfterBlock(kept);
    WfIsValid(b);
    var one := KeepOne(hash, fm, Gen(b));
    if one == [] {
      assert one + kept == kept;
      DroppedDiffers(b, Render(rest), Render(kept));
      assert false;
    } else {
      RenderFirst(one[0], kept);
      if one[0].Text? {
        DetachedDiffers(b, Render(rest), Render(kept));
        assert false;
      } else {
        ReplacedDiffers(b, one[0].block, Render(rest), Render(kept));
        CancelPrefix(RenderBlock(b), Render(kept), Render(rest));
      }
    }
  }

  lemma IndexIsWf(render: seq<Block>)
    requires ValidDoc(render)
    ensures WfIndex(ByKey(render))
  {
    hide WfBlock;
  }

  /** A sync with the keys of its own render leaves a text as it is exactly when
      every block of the text is settled. */
  lemma SyncAgainExactly(hash: Hasher, content: string, render: seq<Block>)
    requires ValidDoc(render)
    ensures SyncText(hash, content, RenderKeys(render), render) == content <==> Settled(hash, ByKey(render), Parse(content))
  {
    hide Parse, ByKey, Settled, Keep, WellLaidOut;
    var segs, fm := Parse(content), ByKey(render);
    ParseIsLossless(content);
    AddFreshAllOld(Keep(hash, fm, segs), RenderKeys(render), render, 0);
    if Settled(hash, fm, segs) {
      MergeOfSettled(hash, segs, render);
    }
    if Render(Keep(hash, fm, segs)) == content {
      IndexIsWf(render);
      ParsedIsTidy(content);
      KeepFixed(hash, fm, segs, "", true);
    }
  }

  lemma ParsedIsTidy(content: string)
    ensures WfSegments(Parse(content)) && Tidy(AnyText, "", Gaps(Parse(content)), true)
  {
    hide Parse;
    ParseLaysOut(content);
    WfBothWays(Parse(content));
    AnyTextIsGood(Gaps(Parse(content)));
    TidyWhole(AnyText, Gaps(Parse(content)));
  }

  // ------------------------------------------------------------ the fixpoint

  /** What sync promises of the text it writes: it reads back as the merged blocks
      and text, and a second sync with the same render writes the identical string
      and reports the same conflicts. */
  ghost predicate Fixpoint(hash: Hasher, content: string, prev: set<string>, render: seq<Block>) {
    var out := Merged(hash, Parse(content), prev, render);
    var once := SyncText(hash, content, prev, render);
    && BlocksOf(Parse(once)) == BlocksOf(out) && Gaps(Parse(once)) == Gaps(out)
    && Repeats(hash, content, prev, render)
  }

  /** The part of it a user can see: same string, same conflicts. */
  ghost predicate Repeats(hash: Hasher, content: string, prev: set<string>, render: seq<Block>) {
    var once := SyncText(hash, content, prev, render);
    && SyncText(hash, once, RenderKeys(render), render) == once
    && Conflicts(hash, ByKey(render), Parse(once)) == Conflicts(hash, ByKey(render), Parse(content))
  }

  /** Sync is a fixpoint on text exactly when the cut is clean and the first block
      of every new key is the one the render's index holds. */
  lemma SyncIsFixpointExactly(hash: Hasher, content: string, prev: set<string>, render: seq<Block>)
    requires BlockRender(hash, render)
    ensures Fixpoint(hash, content, prev, render) <==>
            CleanCut(hash, content, render) && FirstWins(hash, Parse(content), prev, render)
  {
    hide Parse, Merged, CleanCut, Settled, WellLaidOut, FirstWins, ByKey;
    var fm := ByKey(render);
    var out := Merged(hash, Parse(content), prev, render);
    var once := Render(out);
    MergeReparsesExactly(hash, content, prev, render);
    MergedIsSettledExactly(hash, Parse(content), prev, render);
    SyncAgainExactly(hash, once, render);
    if BlocksOf(Parse(once)) == BlocksOf(out) {
      SettledBoth(hash, fm, out, Parse(once));
      MergeKeepsConflicts(hash, Parse(content), prev, render);
      ConflictsByBlocks(hash, fm, out);
      ConflictsByBlocks(hash, fm, Parse(once));
    }
  }

  lemma SettledBoth(hash: Hasher, fm: map<string, Block>, a: seq<Segment>, b: seq<Segment>)
    requires BlocksOf(a) == BlocksOf(b)
    ensures Settled(hash, fm, a) <==> Settled(hash, fm, b)
  {
    hide Settled;
    if Settled(hash, fm, a) {
      SettledByBlocks(hash, fm, a, b);
    }
    if Settled(hash, fm, b) {
      SettledByBlocks(hash, fm, b, a);
    }
  }

  /** In particular for distinct keys, with no stray opening marker in human text or
      when no block vanished upstream. */
  lemma SyncIsFixpoint(hash: Hasher, content: string, prev: set<string>, render: seq<Block>)
    requires FreshRender(hash, render)
    requires NoStrayOpener(content) || NothingVanished(content, render)
    ensures Fixpoint(hash, content, prev, render)
  {
    hide CleanCut, Fixpoint, NoStrayOpener, NothingVanished, FirstWins;
    CleanCutWhen(hash, content, render);
    DistinctFirstWins(hash, Parse(content), prev, render);
    SyncIsFixpointExactly(hash, content, prev, render);
  }

  lemma KeysByBlocks(segs: seq<Segment>, key: string)
    ensures key in Keys(segs) <==> exists b :: b in BlocksOf(segs) && b.key == key
  {
    if i :| 0 <= i < |segs| && segs[i].Gen? && segs[i].block.key == key {
      BlocksOfMember(segs, segs[i].block);
      assert segs[i].block in BlocksOf(segs);
    }
    if b :| b in BlocksOf(segs) && b.key == key {
      BlocksOfMember(segs, b);
    }
  }

  /** After a clean cut the second sync is the last that changes anything, even
      when a key occurs more than once in the render. */
  lemma SettledByTwo(hash: Hasher, content: string, prev: set<string>, render: seq<Block>)
    requires BlockRender(hash, render) && CleanCut(hash, content, render)
    ensures Fixpoint(hash, SyncText(hash, content, prev, render), RenderKeys(render), render)
  {
    hide Parse, Merged, CleanCut, WellLaidOut, Keys, Fixpoint, Count;
    var out := Merged(hash, Parse(content), prev, render);
    var once := Render(out);
    MergeReparsesExactly(hash, content, prev, render);
    forall key | key in Keys(Parse(once)) ensures key in RenderKeys(render) {
      KeysByBlocks(Parse(once), key);
      KeysByBlocks(out, key);
      CountKeys(key, out);
      MergeKeyCount(hash, Parse(content), prev, render, key);
    }
    CleanCutWhen(hash, once, render);
    assert FirstWins(hash, Parse(once), RenderKeys(render), render);
    SyncIsFixpointExactly(hash, once, RenderKeys(render), render);
  }

  // ----------------------------------------------- the same string, seen alone

  /** A block that a merge leaves as it is without raising a conflict. */
  ghost predicate Quiet(hash: Hasher, fm: map<string, Block>, b: Block) {
    SettledBlock(hash, fm, b) && ConflictOne(hash, fm, Gen(b)) == []
  }

  /** Every block that closing up the text brings to light is a quiet one. */
  ghost predicate QuietCut(hash: Hasher, content: string, render: seq<Block>) {
    forall b :: RevealedIn(Gaps(Keep(hash, ByKey(render), Parse(content))), b) ==> Quiet(hash, ByKey(render), b)
  }

  lemma {:induction false} FoundMember(gaps: seq<string>, blocks: seq<Block>, b: Block)
    requires |gaps| == |blocks| + 1
    ensures b in Found(gaps, blocks) <==> b in blocks || RevealedIn(gaps, b)
    decreases |blocks|
  {
    hide Revealed;
    RevealedSplit(gaps, b);
    if blocks != [] {
      FoundMember(gaps[1..], blocks[1..], b);
      assert blocks == [blocks[0]] + blocks[1..];
    }
  }

  lemma RevealedSplit(gaps: seq<string>, b: Block)
    requires gaps != []
    ensures RevealedIn(gaps, b) <==> b in Revealed(gaps[0]) || RevealedIn(gaps[1..], b)
  {
    hide Revealed;
    if i :| 0 <= i < |gaps| && b in Revealed(gaps[i]) && i > 0 {
      assert gaps[1..][i - 1] == gaps[i];
    }
    if i :| 0 <= i < |gaps| - 1 && b in Revealed(gaps[1..][i]) {
      assert gaps[i + 1] == gaps[1..][i];
    }
  }

  ghost function ConflictsIn(hash: Hasher, fm: map<string, Block>, blocks: seq<Block>): seq<Conflict> {
    Conflicts(hash, fm, Gens(blocks))
  }

  lemma ConflictsInConcat(hash: Hasher, fm: map<string, Block>, a: seq<Block>, b: seq<Block>)
    ensures ConflictsIn(hash, fm, a + b) == ConflictsIn(hash, fm, a) + ConflictsIn(hash, fm, b)
  {
    hide Conflicts;
    assert Gens(a + b) == Gens(a) + Gens(b);
    ConflictsConcat(hash, fm, Gens(a), Gens(b));
  }

  lemma {:induction false} NoneInConflict(hash: Hasher, fm: map<string, Block>, blocks: seq<Block>)
    ensures ConflictsIn(hash, fm, blocks) == [] <==> forall b :: b in blocks ==> ConflictOne(hash, fm, Gen(b)) == []
  {
    hide ConflictOne;
    if blocks != [] {
      assert blocks == [blocks[0]] + blocks[1..];
      NoneInConflict(hash, fm, blocks[1..]);
      assert Gens(blocks)[1..] == Gens(blocks[1..]);
      assert Gens(blocks)[0] == Gen(blocks[0]);
    }
  }

  /** Hidden blocks add no conflict exactly when none of them is in conflict. */
  lemma {:induction false} FoundConflicts(hash: Hasher, fm: map<string, Block>, gaps: seq<string>, blocks: seq<Block>)
    requires |gaps| == |blocks| + 1
    ensures ConflictsIn(hash, fm, Found(gaps, blocks)) == ConflictsIn(hash, fm, blocks)
            <==> forall b :: RevealedIn(gaps, b) ==> ConflictOne(hash, fm, Gen(b)) == []
    ensures |ConflictsIn(hash, fm, Found(gaps, blocks))| >= |ConflictsIn(hash, fm, blocks)|
    decreases |blocks|
  {
    hide Revealed, ConflictsIn, ConflictOne, RevealedIn;
    var hidden := Revealed(gaps[0]);
    NoneInConflict(hash, fm, hidden);
    forall b ensures RevealedIn(gaps, b) <==> b in hidden || RevealedIn(gaps[1..], b) {
      RevealedSplit(gaps, b);
    }
    NoConflictsInNothing(hash, fm);
    if blocks == [] {
      NothingRevealed(gaps);
    } else {
      var rest, found := blocks[1..], Found(gaps[1..], blocks[1..]);
      FoundConflicts(hash, fm, gaps[1..], rest);
      ConflictsInConcat(hash, fm, hidden, [blocks[0]] + found);
      ConflictsInConcat(hash, fm, [blocks[0]], found);
      ConflictsInConcat(hash, fm, [blocks[0]], rest);
      assert blocks == [blocks[0]] + rest;
      Inserted(ConflictsIn(hash, fm, hidden), ConflictsIn(hash, fm, [blocks[0]]), ConflictsIn(hash, fm, found), ConflictsIn(hash, fm, rest));
    }
  }

  lemma NoConflictsInNothing(hash: Hasher, fm: map<string, Block>)
    ensures ConflictsIn(hash, fm, []) == []
  {
  }

  lemma NothingRevealed(gaps: seq<string>)
    requires |gaps| == 1
    ensures forall b :: !RevealedIn(gaps[1..], b)
  {
  }

  lemma Inserted<T>(h: seq<T>, x: seq<T>, f: seq<T>, r: seq<T>)
    requires |f| >= |r|
    ensures h + (x + f) == x + r <==> h == [] && f == r
    ensures |h + (x + f)| >= |x + r|
  {
    if h + (x + f) == x + r {
      assert h == [];
      assert h + (x + f) == x + f;
      assert (x + f)[|x|..] == f && (x + r)[|x|..] == r;
    }
  }

  /** A second sync writes the identical string and reports the same conflicts
      exactly when the first block of each new key wins and whatever the cut
      brings to light is quiet. */
  lemma SyncRepeatsExactly(hash: Hasher, content: string, prev: set<string>, render: seq<Block>)
    requires BlockRender(hash, render)
    ensures Repeats(hash, content, prev, render) <==>
            QuietCut(hash, content, render) && FirstWins(hash, Parse(content), prev, render)
  {
    hide Parse, CleanCut, Settled, WellLaidOut, FirstWins, ByKey, Keep, Gaps, RevealedIn, Quiet, Found, AddFresh, SettledBlock, ConflictsIn;
    var fm, kept := ByKey(render), Keep(hash, ByKey(render), Parse(content));
    var out := Merged(hash, Parse(content), prev, render);
    var once := Render(out);
    MergeReparsesExactly(hash, content, prev, render);
    MergedIsSettledExactly(hash, Parse(content), prev, render);
    SyncAgainExactly(hash, once, render);
    ReparseFinds(out);
    OnceSettled(hash, fm, out, Parse(once));
    MergeKeepsConflicts(hash, Parse(content), prev, render);
    ConflictsAreIn(hash, fm, out);
    ConflictsAreIn(hash, fm, Parse(once));
    FoundConflicts(hash, fm, Gaps(out), BlocksOf(out));
    forall b ensures RevealedIn(Gaps(out), b) <==> RevealedIn(Gaps(kept), b) {
      AddFreshReveals(kept, prev, render, 0, b);
    }
    forall b ensures Quiet(hash, fm, b) <==> SettledBlock(hash, fm, b) && ConflictOne(hash, fm, Gen(b)) == [] {
      QuietMeans(hash, fm, b);
    }
  }

  lemma QuietMeans(hash: Hasher, fm: map<string, Block>, b: Block)
    ensures Quiet(hash, fm, b) <==> SettledBlock(hash, fm, b) && ConflictOne(hash, fm, Gen(b)) == []
  {
  }

  lemma ConflictsAreIn(hash: Hasher, fm: map<string, Block>, segs: seq<Segment>)
    ensures Conflicts(hash, fm, segs) == ConflictsIn(hash, fm, BlocksOf(segs))
  {
    ConflictsByBlocks(hash, fm, segs);
  }

  lemma OnceSettled(hash: Hasher, fm: map<string, Block>, out: seq<Segment>, again: seq<Segment>)
    requires BlocksOf(again) == Found(Gaps(out), BlocksOf(out))
    ensures Settled(hash, fm, again) <==>
            Settled(hash, fm, out) && forall b :: RevealedIn(Gaps(out), b) ==> SettledBlock(hash, fm, b)
  {
    hide Gaps, RevealedIn, Found, SettledBlock, BlocksOf;
    SettledIffBlocks(hash, fm, again);
    SettledIffBlocks(hash, fm, out);
    forall b ensures b in BlocksOf(again) <==> b in BlocksOf(out) || RevealedIn(Gaps(out), b) {
      FoundMember(Gaps(out), BlocksOf(out), b);
    }
  }

  lemma SettledIffBlocks(hash: Hasher, fm: map<string, Block>, segs: seq<Segment>)
    ensures Settled(hash, fm, segs) <==> forall b :: b in BlocksOf(segs) ==> SettledBlock(hash, fm, b)
  {
    hide SettledBlock;
    forall b ensures b in BlocksOf(segs) <==> Gen(b) in segs {
      BlocksOfMember(segs, b);
    }
    if forall b :: b in BlocksOf(segs) ==> SettledBlock(hash, fm, b) {
      forall i | 0 <= i < |segs| && segs[i].Gen? ensures SettledBlock(hash, fm, segs[i].block) {
        assert Gen(segs[i].block) in segs;
      }
    }
  }
}
