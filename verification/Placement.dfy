/** Where Merge puts a new block (backend/internal/doc/merge.go), stated of the
    merged document itself. */
module Placement {
  import opened Lines
  import opened Blocks
  import opened Layout
  import opened Merging
  import opened MergeLaws

  /** The new block i stands directly behind the first block with the key of j, with
      a blank line between them. */
  ghost predicate Follows(out: seq<Segment>, render: seq<Block>, i: nat, j: int)
    requires i < |render| && 0 <= j < |render|
  {
    exists p :: FirstWithKey(out, render[j].key, p) && p + 2 < |out| && out[p + 1] == Text("\n\n") && out[p + 2] == Gen(render[i])
  }

  /** Neither a kept block nor any text but separators comes after position q. */
  ghost predicate OnlyNewAfter(kept: set<string>, out: seq<Segment>, q: int) {
    forall k :: 0 <= k < |out| && q < k ==>
      match out[k]
      case Gen(b) => b.key !in kept
      case Text(t) => t == "\n" || t == "\n\n"
  }

  ghost predicate AtEnd(kept: set<string>, out: seq<Segment>, b: Block) {
    exists q :: 0 <= q < |out| && out[q] == Gen(b) && OnlyNewAfter(kept, out, q)
  }

  ghost predicate Stands(kept: set<string>, out: seq<Segment>, render: seq<Block>, i: nat)
    requires i < |render|
  {
    && (forall j :: Nearest(Keys(out), render, i, j) ==> Follows(out, render, i, j))
    && (NonePrecedes(Keys(out), render, i) ==> AtEnd(kept, out, render[i]))
  }

  lemma SameNearest(keys: set<string>, render: seq<Block>, i: nat, k: nat)
    requires DistinctKeys(render) && i <= k < |render|
    ensures NonePrecedes(keys + {render[k].key}, render, i) <==> NonePrecedes(keys, render, i)
    ensures forall j :: Nearest(keys + {render[k].key}, render, i, j) <==> Nearest(keys, render, i, j)
  {
  }

  lemma NearestIsEarlier(keys: set<string>, render: seq<Block>, i: nat)
    requires i <= |render|
    ensures forall j :: Nearest(keys, render, i, j) ==> 0 <= j < i
  {
  }

  lemma InsertBehind(out: seq<Segment>, at: nat, b: Block)
    requires 0 < at <= |out| && out[at - 1].Gen?
    ensures Insert(out, at, b) == out[..at] + [Text("\n\n"), Gen(b)] + out[at..]
  {
  }

  lemma NewFollows(out: seq<Segment>, render: seq<Block>, i: nat, j: int, at: nat)
    requires i < |render| && 0 <= j < i && at <= |out| && FirstWithKey(out, render[j].key, at - 1)
    ensures Follows(Insert(out, at, render[i]), render, i, j)
  {
    InsertBehind(out, at, render[i]);
    var more := Insert(out, at, render[i]);
    assert forall k :: 0 <= k < at ==> more[k] == out[k];
    assert FirstWithKey(more, render[j].key, at - 1);
    assert more[at] == Text("\n\n") && more[at + 1] == Gen(render[i]);
  }

  lemma NewAtEnd(kept: set<string>, out: seq<Segment>, b: Block)
    ensures AtEnd(kept, Insert(out, |out|, b), b)
  {
    var ins := Insertion(out, |out|, b);
    var more := out + ins;
    assert Insert(out, |out|, b) == more;
    var q := |out| + if ins[0] == Gen(b) then 0 else 1;
    assert more[q] == Gen(b);
    assert OnlyNewAfter(kept, more, q);
  }

  lemma NewStands(kept: set<string>, out: seq<Segment>, render: seq<Block>, i: nat)
    requires DistinctKeys(render) && i < |render| && render[i].key !in Keys(out)
    ensures Stands(kept, Insert(out, Anchor(out, render, i), render[i]), render, i)
  {
    hide Keys, Insert, Follows, FirstWithKey, AtEnd, DistinctKeys, Anchor, Nearest, NonePrecedes;
    var at := Anchor(out, render, i);
    AnchorIsRightPlace(out, render, i);
    KeysInsert(out, at, render[i]);
    SameNearest(Keys(out), render, i, i);
    NearestIsEarlier(Keys(out), render, i);
    forall j | Nearest(Keys(out), render, i, j)
      ensures Follows(Insert(out, at, render[i]), render, i, j)
    {
      NewFollows(out, render, i, j, at);
    }
    NewAtEnd(kept, out, render[i]);
  }

  /** A later block never comes between: its own predecessor is another block. */
  lemma FirstMoves(out: seq<Segment>, more: seq<Segment>, key: string, p: int, at: nat)
    requires FirstWithKey(out, key, p) && at <= p && |more| == |out| + 2
    requires forall k :: 0 <= k < at ==> more[k] == out[k]
    requires forall k :: at <= k < |out| ==> more[k + 2] == out[k]
    requires more[at].Text? && more[at + 1].Gen? && more[at + 1].block.key != key
    ensures FirstWithKey(more, key, p + 2)
  {
    assert forall k :: at + 2 <= k < p + 2 ==> more[k] == out[k - 2];
  }

  lemma FirstHolds(out: seq<Segment>, more: seq<Segment>, key: string, p: int, at: nat)
    requires FirstWithKey(out, key, p) && p < at <= |out| <= |more|
    requires forall k :: 0 <= k < at ==> more[k] == out[k]
    ensures FirstWithKey(more, key, p)
  {
  }

  lemma StillFollows(out: seq<Segment>, render: seq<Block>, i: nat, j: int, at: nat, b: Block)
    requires i < |render| && 0 <= j < |render| && Follows(out, render, i, j)
    requires 0 < at <= |out| && out[at - 1].Gen? && !FirstWithKey(out, render[j].key, at - 1) && b.key != render[j].key
    ensures Follows(Insert(out, at, b), render, i, j)
  {
    InsertBehind(out, at, b);
    var more := Insert(out, at, b);
    var p :| FirstWithKey(out, render[j].key, p) && p + 2 < |out| && out[p + 1] == Text("\n\n") && out[p + 2] == Gen(render[i]);
    assert forall k :: 0 <= k < at ==> more[k] == out[k];
    assert forall k :: at <= k < |out| ==> more[k + 2] == out[k];
    assert more[at] == Text("\n\n") && more[at + 1] == Gen(b);
    if at <= p {
      FirstMoves(out, more, render[j].key, p, at);
      assert more[p + 3] == out[p + 1] && more[p + 4] == out[p + 2];
    } else {
      assert at >= p + 3;
      FirstHolds(out, more, render[j].key, p, at);
    }
  }

  lemma StillAtEnd(kept: set<string>, out: seq<Segment>, at: nat, b: Block, x: Block)
    requires at <= |out| && AtEnd(kept, out, x) && b.key !in kept
    ensures AtEnd(kept, Insert(out, at, b), x)
  {
    var ins := Insertion(out, at, b);
    var more := Insert(out, at, b);
    var q :| 0 <= q < |out| && out[q] == Gen(x) && OnlyNewAfter(kept, out, q);
    assert forall k :: 0 <= k < at ==> more[k] == out[k];
    assert forall k :: 0 <= k < |ins| ==> more[at + k] == ins[k];
    assert forall k :: at + |ins| <= k < |more| ==> more[k] == out[k - |ins|];
    var r := if q < at then q else q + |ins|;
    assert more[r] == Gen(x);
    assert OnlyNewAfter(kept, more, r);
  }

  /** Once block i is in, a predecessor of a later k in the render is i or after it. */
  lemma LaterAnchor(out: seq<Segment>, render: seq<Block>, i: nat, k: nat)
    requires DistinctKeys(render) && i < k < |render| && render[i].key in Keys(out)
    ensures var at := Anchor(out, render, k);
      && 0 < at <= |out| && out[at - 1].Gen?
      && forall j :: 0 <= j < i ==> !FirstWithKey(out, render[j].key, at - 1)
  {
    hide Keys, Anchor, FirstWithKey, Nearest, NonePrecedes, DistinctKeys;
    var at: int := Anchor(out, render, k);
    AnchorIsRightPlace(out, render, k);
    var m := LastPresent(Keys(out), render, i, k);
    KeyAt(out, render[m].key, at - 1);
    forall j | 0 <= j < i
      ensures !FirstWithKey(out, render[j].key, at - 1)
    {
      KeyAt(out, render[j].key, at - 1);
      KeysDiffer(render, j, m);
    }
  }

  lemma KeysDiffer(render: seq<Block>, j: nat, m: nat)
    requires DistinctKeys(render) && j < m < |render|
    ensures render[j].key != render[m].key
  {
  }

  lemma KeyAt(out: seq<Segment>, key: string, p: int)
    ensures FirstWithKey(out, key, p) ==> 0 <= p < |out| && out[p].Gen? && out[p].block.key == key
  {
  }

  lemma {:induction false} LastPresent(keys: set<string>, render: seq<Block>, i: nat, k: nat) returns (m: nat)
    requires i < k <= |render| && render[i].key in keys
    ensures i <= m < k && Nearest(keys, render, k, m)
    decreases k
  {
    if render[k - 1].key in keys {
      m := k - 1;
    } else {
      m := LastPresent(keys, render, i, k - 1);
    }
  }

  lemma StandsOn(kept: set<string>, out: seq<Segment>, render: seq<Block>, i: nat, k: nat)
    requires DistinctKeys(render) && i < k < |render| && render[i].key in Keys(out)
    requires render[k].key !in kept && Stands(kept, out, render, i)
    ensures Stands(kept, Insert(out, Anchor(out, render, k), render[k]), render, i)
  {
    hide Keys, Insert, Follows, FirstWithKey, AtEnd, Anchor;
    var at := Anchor(out, render, k);
    KeysInsert(out, at, render[k]);
    SameNearest(Keys(out), render, i, k);
    LaterAnchor(out, render, i, k);
    forall j | Nearest(Keys(out), render, i, j)
      ensures Follows(Insert(out, at, render[k]), render, i, j)
    {
      assert render[j].key != render[k].key;
      StillFollows(out, render, i, j, at, render[k]);
    }
    if AtEnd(kept, out, render[i]) {
      StillAtEnd(kept, out, at, render[k], render[i]);
    }
  }

  lemma {:induction false} StandsToTheEnd(kept: set<string>, out: seq<Segment>, prev: set<string>, render: seq<Block>, i: nat, k: nat)
    requires DistinctKeys(render) && i < k <= |render| && render[i].key in Keys(out)
    requires kept <= Keys(out) && Stands(kept, out, render, i)
    ensures Stands(kept, AddFresh(out, prev, render, k), render, i)
    decreases |render| - k
  {
    hide Keys, Insert, Stands, DistinctKeys, Anchor;
    if k < |render| {
      if render[k].key in Keys(out) || render[k].key in prev {
        StandsToTheEnd(kept, out, prev, render, i, k + 1);
      } else {
        StandsOn(kept, out, render, i, k);
        KeysInsert(out, Anchor(out, render, k), render[k]);
        StandsToTheEnd(kept, Insert(out, Anchor(out, render, k), render[k]), prev, render, i, k + 1);
      }
    }
  }

  lemma {:induction false} AddedStands(kept: set<string>, out: seq<Segment>, prev: set<string>, render: seq<Block>, i: nat, k: nat)
    requires DistinctKeys(render) && k <= i < |render|
    requires render[i].key !in Keys(out) && render[i].key !in prev && kept <= Keys(out)
    ensures Stands(kept, AddFresh(out, prev, render, k), render, i)
    decreases |render| - k
  {
    hide Keys, Insert, Stands, Anchor;
    if k == i {
      NewStands(kept, out, render, i);
      KeysInsert(out, Anchor(out, render, i), render[i]);
      StandsToTheEnd(kept, Insert(out, Anchor(out, render, i), render[i]), prev, render, i, i + 1);
    } else if render[k].key in Keys(out) || render[k].key in prev {
      AddedStands(kept, out, prev, render, i, k + 1);
    } else {
      assert render[k].key != render[i].key;
      KeysInsert(out, Anchor(out, render, k), render[k]);
      AddedStands(kept, Insert(out, Anchor(out, render, k), render[k]), prev, render, i, k + 1);
    }
  }

  /** In the merged document every new block stands directly behind the first block
      of its nearest predecessor in the render that the document has, however many
      entries lie between them; without one it comes after all that was there. */
  lemma NewBlocksStand(hash: Hasher, existing: seq<Segment>, prev: set<string>, render: seq<Block>, i: nat)
    requires DistinctKeys(render) && i < |render|
    requires render[i].key !in prev && render[i].key !in Keys(Keep(hash, ByKey(render), existing))
    ensures Stands(Keys(Keep(hash, ByKey(render), existing)), Merged(hash, existing, prev, render), render, i)
  {
    hide Keys, Keep, ByKey, Stands, DistinctKeys;
    var kept := Keep(hash, ByKey(render), existing);
    AddedStands(Keys(kept), kept, prev, render, i, 0);
  }

  // ------------------------------------------------------- what is written there

  /** What comes between a text and a block put behind it. */
  ghost function BlankLine(before: string): string {
    if before == "" then "" else if EndsNL(before) then "\n" else "\n\n"
  }

  /** A new block is set off by a blank line, and ends the document with a newline
      unless the text before it did not. */
  lemma InsertWrites(out: seq<Segment>, at: nat, b: Block)
    requires at <= |out| && (at == |out| || (at > 0 && out[at - 1].Gen?))
    requires forall k :: 0 <= k < |out| && out[k].Text? ==> out[k].text != ""
    ensures var before := Render(out[..at]);
      Render(Insert(out, at, b)) == before + BlankLine(before) + RenderBlock(b)
        + (if at == |out| && BlankLine(before) != "\n\n" then "\n" else "") + Render(out[at..])
  {
    hide Render, RenderBlock;
    var ins, before := Insertion(out, at, b), Render(out[..at]);
    RenderConcat(out[..at] + ins, out[at..]);
    RenderConcat(out[..at], ins);
    RenderEnd(out[..at]);
    assert at == |out| ==> out[..at] == out;
    InsertionWrites(out, at, b);
    assert before + (BlankLine(before) + RenderBlock(b)) == before + BlankLine(before) + RenderBlock(b);
  }

  lemma InsertionWrites(out: seq<Segment>, at: nat, b: Block)
    requires at <= |out|
    ensures Render(Insertion(out, at, b)) ==
      if at == |out| && out == [] then RenderBlock(b) + "\n"
      else if at == |out| && EndsWithNewline(out) then "\n" + RenderBlock(b) + "\n"
      else "\n\n" + RenderBlock(b)
  {
    hide RenderBlock, Render;
    RenderLone(Gen(b));
    RenderLone(Text("\n"));
    RenderLone(Text("\n\n"));
    RenderConcat([Gen(b)], [Text("\n")]);
    RenderConcat([Text("\n")], [Gen(b), Text("\n")]);
    RenderConcat([Text("\n\n")], [Gen(b)]);
    assert [Gen(b)] + [Text("\n")] == [Gen(b), Text("\n")];
    assert [Text("\n\n")] + [Gen(b)] == [Text("\n\n"), Gen(b)];
    if at == |out| && out == [] {
      assert Insertion(out, at, b) == [Gen(b), Text("\n")];
    } else if at == |out| && EndsWithNewline(out) {
      assert Insertion(out, at, b) == [Text("\n")] + [Gen(b), Text("\n")];
      assert "\n" + (RenderBlock(b) + "\n") == "\n" + RenderBlock(b) + "\n";
    } else {
      assert Insertion(out, at, b) == [Text("\n\n"), Gen(b)];
    }
  }

  lemma RenderLone(s: Segment)
    ensures Render([s]) == RenderSegment(s)
  {
    assert [s][1..] == [];
    assert Render([s]) == RenderSegment(s) + "";
  }

  /** A rendering ends with a newline exactly when its last segment is text that does. */
  lemma RenderEnd(segs: seq<Segment>)
    requires forall k :: 0 <= k < |segs| && segs[k].Text? ==> segs[k].text != ""
    ensures Render(segs) == "" <==> segs == []
    ensures segs != [] ==> (EndsNL(Render(segs)) <==> EndsWithNewline(segs))
  {
    hide Render, RenderBlock;
    if segs == [] {
      RenderNothing();
    } else {
      var n := |segs| - 1;
      assert segs == segs[..n] + [segs[n]];
      RenderConcat(segs[..n], [segs[n]]);
      RenderLone(segs[n]);
      if segs[n].Gen? {
        BlockEnd(segs[n].block);
      }
      LastChar(Render(segs[..n]), RenderSegment(segs[n]));
    }
  }

  lemma RenderNothing()
    ensures Render([]) == ""
  {
  }

  lemma LastChar(a: string, b: string)
    requires b != ""
    ensures a + b != "" && (EndsNL(a + b) <==> EndsNL(b))
  {
    assert (a + b)[|a + b| - 1] == b[|b| - 1];
  }

  lemma BlockEnd(b: Block)
    ensures RenderBlock(b) != "" && !EndsNL(RenderBlock(b))
  {
    CloseHasNoNewline();
    var s := RenderBlock(b);
    assert s[|s| - 1] == CLOSE[|CLOSE| - 1];
    assert CLOSE[|CLOSE| - 1] in CLOSE;
  }
}
