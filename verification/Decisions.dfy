/** What review decisions do to a document (backend/internal/doc/ownership.go): no
    human work is lost by one, and every conflict of a sync is put up for one. */
module Decisions {
  import opened Lines
  import opened Blocks
  import opened Merging
  import opened MergeLaws
  import opened Generated
  import opened Sync
  import opened Ownership
  import L = Layout

  // -------------------------------------------------------- keeping a human edit

  function Kept(segs: seq<Segment>, at: int): (r: seq<Segment>)
    requires 0 <= at < |segs| && segs[at].Gen?
    ensures |r| == |segs|
  {
    segs[at := Text(segs[at].block.body)]
  }

  lemma Around(segs: seq<Segment>, at: int, s: Segment)
    requires 0 <= at < |segs|
    ensures segs == segs[..at] + [segs[at]] + segs[at + 1..]
    ensures segs[at := s] == segs[..at] + [s] + segs[at + 1..]
  {
  }

  lemma PiecesAround(hash: Hasher, a: seq<Segment>, s: Segment, b: seq<Segment>)
    ensures HumanPieces(hash, a + [s] + b) == HumanPieces(hash, a) + PieceOf(hash, s) + HumanPieces(hash, b)
  {
    hide HumanPieces, PieceOf;
    PiecesConcat(hash, a + [s], b);
    PiecesConcat(hash, a, [s]);
    PiecesSingle(hash, s);
  }

  /** The kept body stands as text where the block stood, and nothing else moves; an
      edited body was human work before and is the same human work after. */
  lemma KeptPieces(hash: Hasher, segs: seq<Segment>, at: int)
    requires 0 <= at < |segs| && segs[at].Gen?
    ensures HumanPieces(hash, Kept(segs, at))
            == HumanPieces(hash, segs[..at]) + [segs[at].block.body] + HumanPieces(hash, segs[at + 1..])
    ensures segs[at].block.Edited(hash) ==> HumanPieces(hash, Kept(segs, at)) == HumanPieces(hash, segs)
  {
    hide HumanPieces;
    var body := Text(segs[at].block.body);
    Around(segs, at, body);
    PiecesAround(hash, segs[..at], body, segs[at + 1..]);
    PiecesAround(hash, segs[..at], segs[at], segs[at + 1..]);
  }

  lemma CountAround(key: string, a: seq<Segment>, s: Segment, b: seq<Segment>)
    ensures Count(key, a + [s] + b) == Count(key, a) + (if s.Gen? && s.block.key == key then 1 else 0) + Count(key, b)
  {
    hide Count;
    CountConcat(key, a + [s], b);
    CountConcat(key, a, [s]);
    CountLone(key, s);
  }

  lemma CountLone(key: string, s: Segment)
    ensures Count(key, [s]) == if s.Gen? && s.block.key == key then 1 else 0
  {
    assert [s][1..] == [];
  }

  lemma KeptCounts(segs: seq<Segment>, at: int, key: string)
    requires 0 <= at < |segs| && segs[at].Gen?
    ensures Count(key, segs) == Count(key, Kept(segs, at)) + if segs[at].block.key == key then 1 else 0
  {
    hide Count;
    Around(segs, at, Text(segs[at].block.body));
    CountAround(key, segs[..at], segs[at], segs[at + 1..]);
    CountAround(key, segs[..at], Text(segs[at].block.body), segs[at + 1..]);
  }

  /** Accepting replaces one block and leaves all other human work where it was. */
  lemma AcceptedPieces(hash: Hasher, segs: seq<Segment>, at: int, b: Block)
    requires 0 <= at < |segs| && segs[at].Gen? && !b.Edited(hash)
    ensures HumanPieces(hash, segs[at := Gen(b)]) == HumanPieces(hash, segs[..at]) + HumanPieces(hash, segs[at + 1..])
  {
    hide HumanPieces;
    Around(segs, at, Gen(b));
    PiecesAround(hash, segs[..at], Gen(b), segs[at + 1..]);
  }

  /** In every reachable history, a version that keeps a conflict has all human work
      of the version before it, with the kept body as text in its place; one that
      accepts it has all but the body it replaces. */
  lemma DecisionsKeepHumanWork(hash: Hasher, s: State, steps: seq<Step>, v: nat)
    requires Inv(hash, s) && ValidSteps(hash, steps)
    requires var h := Run(hash, s, steps).history;
             v < |h| && h[v].write.ResolveWrite? && h[v].write.proposal.kind.DocConflict?
    ensures var h := Run(hash, s, steps).history;
            v > 0 && DecisionKept(hash, h[v - 1].content, h[v].write.proposal, h[v].write.accept, h[v].content)
  {
    hide Run, Parse, DecidedAt, DecisionKept, DecidedFrom;
    RunKeepsInvariant(hash, s, steps);
    var h := Run(hash, s, steps).history;
    assert VersionOk(hash, h, v);
    DecisionIsKept(hash, h[v - 1].content, h[v].write.proposal, h[v].write.accept, h[v].content);
  }

  ghost predicate DecisionKept(hash: Hasher, content: string, p: Proposal, accept: bool, result: string) {
    exists at, after :: DecisionKeptAt(hash, Parse(content), p, accept, at, after) && result == Render(after)
  }

  ghost predicate DecisionKeptAt(hash: Hasher, before: seq<Segment>, p: Proposal, accept: bool, at: int, after: seq<Segment>) {
    && FirstWithKey(before, p.key, at) && |after| == |before|
    && (forall i :: 0 <= i < |before| && i != at ==> after[i] == before[i])
    && (accept ==>
          && after[at] == Gen(NewBlock(hash, p.key, p.generated))
          && HumanPieces(hash, after) == HumanPieces(hash, before[..at]) + HumanPieces(hash, before[at + 1..]))
    && (!accept ==>
          && after[at] == Text(before[at].block.body)
          && HumanPieces(hash, after) == HumanPieces(hash, before[..at]) + [before[at].block.body] + HumanPieces(hash, before[at + 1..])
          && (before[at].block.Edited(hash) ==> HumanPieces(hash, after) == HumanPieces(hash, before))
          && Count(p.key, after) + 1 == Count(p.key, before))
  }

  lemma DecisionIsKept(hash: Hasher, content: string, p: Proposal, accept: bool, result: string)
    requires DecidedFrom(hash, Parse(content), p, accept, result)
    ensures DecisionKept(hash, content, p, accept, result)
  {
    hide Parse, Render, HumanPieces, Count, NewBlock;
    var before := Parse(content);
    var at :| DecidedAt(hash, before, p, accept, at, result);
    if accept {
      var nb := NewBlock(hash, p.key, p.generated);
      NewIsUnedited(hash, p.key, p.generated);
      AcceptedPieces(hash, before, at, nb);
      assert DecisionKeptAt(hash, before, p, accept, at, before[at := Gen(nb)]);
    } else {
      KeptPieces(hash, before, at);
      KeptCounts(before, at, p.key);
      assert DecisionKeptAt(hash, before, p, accept, at, Kept(before, at));
    }
  }

  lemma NewIsUnedited(hash: Hasher, key: string, body: string)
    ensures !NewBlock(hash, key, body).Edited(hash)
  {
  }

  // ------------------------------------------------------- how it reads back

  /** Turning a block into text leaves every other block on its own lines. */
  lemma {:induction false} KeptIsTidy(segs: seq<Segment>, at: int, pre: string, first: bool)
    requires 0 <= at < |segs| && segs[at].Gen? && WfSegments(segs) && Tidy(AnyText, pre, L.Gaps(segs), first)
    ensures Tidy(AnyText, pre, L.Gaps(Kept(segs, at)), first)
    decreases |segs|
  {
    hide Tidy, L.Gaps, L.GapOk, L.WfBlock;
    var rest := segs[1..];
    var g := L.Gaps(rest);
    assert WfSegments(rest);
    GapsHead(segs);
    GapsHead(Kept(segs, at));
    if at == 0 {
      assert Kept(segs, at)[1..] == rest;
      var body := segs[0].block.body;
      TidyBlock(AnyText, pre, g, first);
      TidyJoin(AnyText, pre, body, g, first);
      TidyPrefix(AnyText, pre, body, g, first);
    } else {
      assert Kept(segs, at)[1..] == Kept(rest, at - 1);
      var k := L.Gaps(Kept(rest, at - 1));
      if segs[0].Text? {
        TidyPrefix(AnyText, pre, segs[0].text, g, first);
        KeptIsTidy(rest, at - 1, pre + segs[0].text, first);
        TidyPrefix(AnyText, pre, segs[0].text, k, first);
      } else {
        TidyBlock(AnyText, pre, g, first);
        KeptIsTidy(rest, at - 1, "", false);
        TidyBlock(AnyText, pre, k, first);
      }
    }
  }

  lemma GapsHead(segs: seq<Segment>)
    requires segs != []
    ensures var g := L.Gaps(segs[1..]);
            L.Gaps(segs) == if segs[0].Text? then [segs[0].text + g[0]] + g[1..] else [""] + g
  {
  }

  /** A kept block's document reads back as it was left if and only if its body and
      the text around it, read together, hold no block. */
  lemma KeepReparsesExactly(hash: Hasher, content: string, at: int)
    requires 0 <= at < |Parse(content)| && Parse(content)[at].Gen?
    ensures var after := Kept(Parse(content), at);
      && L.WellLaidOut(after)
      && (BlocksOf(Parse(Render(after))) == BlocksOf(after) <==> L.AllInert(L.Gaps(after)))
      && (L.AllInert(L.Gaps(after)) ==> L.Gaps(Parse(Render(after))) == L.Gaps(after))
  {
    hide Parse, L.AllInert, Tidy, Render;
    var segs := Parse(content);
    var after := Kept(segs, at);
    ParseLaysOut(content);
    WfBothWays(segs);
    AnyTextIsGood(L.Gaps(segs));
    TidyWhole(AnyText, L.Gaps(segs));
    KeptIsTidy(segs, at, "", true);
    TidyWhole(AnyText, L.Gaps(after));
    assert WfSegments(after);
    WfBothWays(after);
    L.ReparseExactly(after);
    if L.AllInert(L.Gaps(after)) {
      L.ReparseGaps(after);
    }
  }

  /** In that case one block fewer has the key, and a render conflicts on it exactly when
      another block clashes with it. */
  lemma KeepSettles(hash: Hasher, content: string, at: int, render: seq<Block>)
    requires 0 <= at < |Parse(content)| && Parse(content)[at].Gen?
    requires L.AllInert(L.Gaps(Kept(Parse(content), at)))
    ensures var segs, fm, again := Parse(content), ByKey(render), Parse(Render(Kept(Parse(content), at)));
      var key := segs[at].block.key;
      && Count(key, again) + 1 == Count(key, segs)
      && ((exists x :: x in Conflicts(hash, fm, again) && x.key == key)
          <==> exists i :: 0 <= i < |segs| && i != at && ClashesAt(hash, fm, segs, i, key))
  {
    hide Parse, Conflicts, ByKey, ClashesAt, Render, Count, L.AllInert, L.Gaps, Kept;
    var segs, fm := Parse(content), ByKey(render);
    var key := segs[at].block.key;
    var after := Kept(segs, at);
    var again := Parse(Render(after));
    KeepReparsesExactly(hash, content, at);
    KeptCounts(segs, at, key);
    CountByBlocks(key, after);
    CountByBlocks(key, again);
    ConflictsByBlocks(hash, fm, after);
    ConflictsByBlocks(hash, fm, again);
    ConflictMember(hash, fm, after, key);
    KeptClashes(hash, fm, segs, at, key);
  }

  lemma KeptClashes(hash: Hasher, fm: map<string, Block>, segs: seq<Segment>, at: int, key: string)
    requires 0 <= at < |segs| && segs[at].Gen?
    ensures var after := Kept(segs, at);
      (exists i :: 0 <= i < |after| && ClashesAt(hash, fm, after, i, key))
      <==> exists i :: 0 <= i < |segs| && i != at && ClashesAt(hash, fm, segs, i, key)
  {
    var after := Kept(segs, at);
    forall i | 0 <= i < |segs|
      ensures ClashesAt(hash, fm, after, i, key) <==> i != at && ClashesAt(hash, fm, segs, i, key)
    {
    }
  }
}
