/** What a sync puts up for review, what it remembers, and when it leaves a document
    to its person (backend/internal/doc/ownership.go). */
module Reviews {
  import opened Blocks
  import opened Merging
  import opened MergeLaws
  import opened Sync
  import opened Ownership
  import FreshRenders
  import Layout

  // ----------------------------------------------------------- raising a change

  /** The last change of the proposal's kind and block. */
  ghost predicate IsLatest(changes: seq<Change>, p: Proposal, i: int) {
    && 0 <= i < |changes| && changes[i].proposal.kind == p.kind && changes[i].proposal.key == p.key
    && forall k :: i < k < |changes| ==> !(changes[k].proposal.kind == p.kind && changes[k].proposal.key == p.key)
  }

  ghost predicate AlreadyRaised(changes: seq<Change>, p: Proposal) {
    exists i :: IsLatest(changes, p, i) && changes[i].proposal.genHash == p.genHash
  }

  lemma LatestIsLatest(changes: seq<Change>, p: Proposal)
    ensures Latest(changes, p, |changes|) >= 0 ==> IsLatest(changes, p, Latest(changes, p, |changes|))
    ensures forall i :: IsLatest(changes, p, i) ==> i == Latest(changes, p, |changes|)
  {
  }

  /** A proposal like the latest one of its pattern changes nothing. Any other ends up
      open as the last change, the earlier ones stay what they were, and of those only
      the latest of the pattern may be dismissed, if it was still open. */
  lemma RaiseExactly(changes: seq<Change>, p: Proposal)
    ensures var r := Raise(changes, p);
      if AlreadyRaised(changes, p) then r == changes
      else
        && |r| == |changes| + 1 && r[|changes|] == Change(p, New)
        && forall i :: 0 <= i < |changes| ==>
             && r[i].proposal == changes[i].proposal
             && r[i].status == if IsLatest(changes, p, i) && changes[i].status == New then Dismissed else changes[i].status
  {
    LatestIsLatest(changes, p);
  }

  /** Either way the latest change of the pattern is for what was generated last. */
  lemma RaisedIsLatest(changes: seq<Change>, p: Proposal)
    ensures AlreadyRaised(Raise(changes, p), p)
  {
    RaiseExactly(changes, p);
    var r := Raise(changes, p);
    if !AlreadyRaised(changes, p) {
      PatternIsOwn(p);
      assert IsLatest(r, p, |changes|);
    }
  }

  lemma PatternIsOwn(p: Proposal)
    ensures SamePattern(p, p)
  {
  }

  /** Raising another proposal takes nothing back, unless it is for the same pattern. */
  lemma RaisedStays(changes: seq<Change>, p: Proposal, q: Proposal)
    requires AlreadyRaised(changes, p) && (SamePattern(q, p) ==> q.genHash == p.genHash)
    ensures AlreadyRaised(Raise(changes, q), p)
  {
    RaiseExactly(changes, q);
    var r := Raise(changes, q);
    var i :| IsLatest(changes, p, i) && changes[i].proposal.genHash == p.genHash;
    if SamePattern(q, p) {
      assert IsLatest(changes, q, i);
    } else if !AlreadyRaised(changes, q) {
      assert IsLatest(r, p, i);
    }
  }

  ghost function RaiseAll(changes: seq<Change>, ps: seq<Proposal>): seq<Change>
    decreases |ps|
  {
    if ps == [] then changes else RaiseAll(Raise(changes, ps[0]), ps[1..])
  }

  /** Proposals for one pattern in the queue are for the same generated text. */
  ghost predicate Consistent(ps: seq<Proposal>) {
    forall i, j :: 0 <= i < |ps| && 0 <= j < |ps| && SamePattern(ps[i], ps[j]) ==> ps[i].genHash == ps[j].genHash
  }

  lemma {:induction false} AllRaisedStays(changes: seq<Change>, ps: seq<Proposal>, p: Proposal)
    requires AlreadyRaised(changes, p) && forall i :: 0 <= i < |ps| && SamePattern(ps[i], p) ==> ps[i].genHash == p.genHash
    ensures AlreadyRaised(RaiseAll(changes, ps), p)
    decreases |ps|
  {
    hide AlreadyRaised, Raise;
    if ps != [] {
      RaisedStays(changes, p, ps[0]);
      AllRaisedStays(Raise(changes, ps[0]), ps[1..], p);
    }
  }

  lemma {:induction false} AllRaised(changes: seq<Change>, ps: seq<Proposal>, k: nat)
    requires Consistent(ps) && k < |ps|
    ensures AlreadyRaised(RaiseAll(changes, ps), ps[k])
    decreases |ps|
  {
    hide AlreadyRaised, Raise;
    if k == 0 {
      RaisedIsLatest(changes, ps[0]);
      AllRaisedStays(Raise(changes, ps[0]), ps[1..], ps[0]);
    } else {
      AllRaised(Raise(changes, ps[0]), ps[1..], k - 1);
    }
  }

  /** Raising one by one empties the queue. */
  lemma {:induction false} QueueDrains(hash: Hasher, s: State, n: nat)
    requires n == |s.raising|
    ensures Run(hash, s, seq(n, _ => RaiseNext)) == s.(changes := RaiseAll(s.changes, s.raising), raising := [])
    decreases n
  {
    hide Raise;
    var steps := seq(n, _ => RaiseNext);
    if n > 0 {
      var t := Next(hash, s, RaiseNext);
      assert steps[1..] == seq(n - 1, _ => RaiseNext);
      QueueDrains(hash, t, n - 1);
    }
  }

  // ------------------------------------------------------- what a sync leaves

  /** The sync was not overtaken: it wrote, or found nothing to write. */
  ghost predicate Applied(hash: Hasher, s: State, prev: set<string>)
    requires s.job.Some?
  {
    var j := s.job.value;
    Baseline(j) == Some(prev) && (SyncText(hash, j.content, prev, j.render) == j.content || s.version == j.base)
  }

  lemma ConflictsAreConsistent(hash: Hasher, fm: map<string, Block>, segs: seq<Segment>)
    requires forall k :: k in fm ==> fm[k].key == k
    ensures Consistent(Proposals(Conflicts(hash, fm, segs)))
  {
    var cs := Conflicts(hash, fm, segs);
    forall i | 0 <= i < |cs| ensures cs[i].key in fm && cs[i].generated == fm[cs[i].key] {
      ConflictIsIndexed(hash, fm, segs, cs[i]);
    }
    hide Conflicts;
  }

  lemma {:induction false} ConflictIsIndexed(hash: Hasher, fm: map<string, Block>, segs: seq<Segment>, c: Conflict)
    requires c in Conflicts(hash, fm, segs)
    ensures c.key in fm && c.generated == fm[c.key]
  {
    if c !in ConflictOne(hash, fm, segs[0]) {
      ConflictIsIndexed(hash, fm, segs[1..], c);
    }
  }

  /** Once a sync that was not overtaken has raised its proposals, the latest change
      for every conflict of the document it read is for the text it generated. */
  lemma ConflictsAreRaised(hash: Hasher, s: State, prev: set<string>, c: Conflict)
    requires s.job.Some? && Applied(hash, s, prev)
    requires c in Conflicts(hash, ByKey(s.job.value.render), Parse(s.job.value.content))
    ensures var t := FinishSync(hash, s, s.job.value);
      var u := Run(hash, t, seq(|t.raising|, _ => RaiseNext));
      && u.raising == [] && u.content == t.content
      && AlreadyRaised(u.changes, Proposal(DocConflict, c.key, c.human, c.generated.body, c.generated.hash))
  {
    hide Conflicts, ByKey, Parse, SyncText, Run, AlreadyRaised, Baseline, RenderKeys;
    var j := s.job.value;
    var t := FinishSync(hash, s, j);
    var cs := Conflicts(hash, ByKey(j.render), Parse(j.content));
    ByKeyKeys(j.render);
    ConflictsAreConsistent(hash, ByKey(j.render), Parse(j.content));
    assert t.raising == Proposals(cs);
    QueueDrains(hash, t, |t.raising|);
    var k :| 0 <= k < |cs| && cs[k] == c;
    AllRaised(t.changes, t.raising, k);
    assert t.raising[k] == Proposal(DocConflict, c.key, c.human, c.generated.body, c.generated.hash);
  }

  /** It remembers every key of its render, so a block deleted after it stays deleted. */
  lemma SyncRemembersRender(hash: Hasher, s: State, prev: set<string>, key: string)
    requires s.job.Some? && Applied(hash, s, prev) && key in RenderKeys(s.job.value.render)
    ensures Remembered(FinishSync(hash, s, s.job.value), key)
  {
    hide Conflicts, ByKey, Parse, SyncText, Baseline, RenderKeys, Proposals;
  }

  /** An overtaken sync raises nothing and remembers nothing. */
  lemma OvertakenSyncIsSilent(hash: Hasher, s: State, prev: set<string>)
    requires s.job.Some? && Baseline(s.job.value) == Some(prev) && !Applied(hash, s, prev)
    ensures FinishSync(hash, s, s.job.value) == s.(job := None)
  {
    hide Conflicts, ByKey, Parse, SyncText, Baseline, RenderKeys, Proposals;
  }

  // ----------------------------------------------------- documents left to people

  /** The step adopts no generated layout. */
  ghost predicate NoAdoption(s: State, step: Step) {
    step.Resolve? && step.change < |s.changes| && step.accept ==> s.changes[step.change].proposal.kind.DocConflict?
  }

  ghost predicate NoAdoptions(hash: Hasher, s: State, steps: seq<Step>)
    decreases |steps|
  {
    steps == [] || (NoAdoption(s, steps[0]) && NoAdoptions(hash, Next(hash, s, steps[0]), steps[1..]))
  }

  ghost predicate OnlyPeopleFrom(history: seq<Version>, from: nat) {
    forall v :: from <= v < |history| ==> history[v].write.HumanWrite? || history[v].write.ResolveWrite?
  }

  lemma HumanOwnedStep(hash: Hasher, s: State, step: Step, from: nat)
    requires s.origin.Human? && s.job.None? && NoAdoption(s, step) && from <= |s.history| && OnlyPeopleFrom(s.history, from)
    ensures var t := Next(hash, s, step); t.origin.Human? && t.job.None? && from <= |t.history| && OnlyPeopleFrom(t.history, from)
  {
    hide Raise, Decided, Parse, Render, FinishSync;
  }

  /** A document that was handed to a person is written by people alone, over every
      run, until one of them adopts the generated layout. */
  lemma {:induction false} HumanOwnedStays(hash: Hasher, s: State, steps: seq<Step>, from: nat)
    requires s.origin.Human? && s.job.None? && from <= |s.history| && OnlyPeopleFrom(s.history, from)
    requires NoAdoptions(hash, s, steps)
    ensures var t := Run(hash, s, steps); t.origin.Human? && OnlyPeopleFrom(t.history, from)
    decreases |steps|
  {
    hide Next, OnlyPeopleFrom, NoAdoption;
    if steps != [] {
      HumanOwnedStep(hash, s, steps[0], from);
      HumanOwnedStays(hash, Next(hash, s, steps[0]), steps[1..], from);
    }
  }

  /** A legacy document whose last version is a person's is not written but handed
      over, with one proposal that holds both texts. */
  lemma LegacyIsHandedOver(hash: Hasher, s: State)
    requires s.job.Some? && Baseline(s.job.value).None?
    requires s.history != [] && (s.history[|s.history| - 1].write.HumanWrite? || s.history[|s.history| - 1].write.ResolveWrite?)
    ensures var j, t := s.job.value, FinishSync(hash, s, s.job.value);
      && t.origin.Human? && t.job.None?
      && t.content == s.content && t.version == s.version && t.history == s.history
      && |t.raising| == 1 && t.raising[0].kind.DocAdopt? && t.raising[0].human == j.content
      && t.raising[0].generated == Render(FreshRenders.FreshSegments(j.render))
      && t.raising[0].genHash == hash(t.raising[0].generated)
  {
    hide Parse, Baseline, SyncText, Conflicts;
  }

  /** In every reachable history a legacy document is overwritten only if it held no
      block and its last version was not a person's. */
  lemma LegacyOverwritesNoPerson(hash: Hasher, s: State, steps: seq<Step>, v: nat)
    requires Inv(hash, s) && ValidSteps(hash, steps)
    requires var h := Run(hash, s, steps).history; v < |h| && h[v].write.LegacyWrite?
    ensures var h := Run(hash, s, steps).history;
      && v > 0 && BlocksOf(Parse(h[v - 1].content)) == []
      && !h[v - 1].write.HumanWrite? && !h[v - 1].write.ResolveWrite?
  {
    hide Run, Parse, MergeOfPredecessor, DecisionOfPredecessor;
    RunKeepsInvariant(hash, s, steps);
    assert VersionOk(hash, Run(hash, s, steps).history, v);
  }

  // ------------------------------------------- documents taken (back) under sync

  /** The document is exactly a render under sync, and all keys of it are remembered. */
  ghost predicate Managed(s: State, render: seq<Block>) {
    s.content == Render(FreshRenders.FreshSegments(render)) && s.genKeys == Some(RenderKeys(render)) && s.origin.FromSync?
  }

  lemma CreatedIsManaged(render: seq<Block>)
    ensures Managed(Created(render), render)
  {
  }

  /** A legacy document that no person wrote last is replaced by the render, unless
      something was written since it was read. */
  lemma LegacyIsUpgraded(hash: Hasher, s: State)
    requires s.job.Some? && Baseline(s.job.value).None? && s.origin.FromSync?
    requires s.history == [] || !(s.history[|s.history| - 1].write.HumanWrite? || s.history[|s.history| - 1].write.ResolveWrite?)
    ensures var j, t := s.job.value, FinishSync(hash, s, s.job.value);
      if s.version == j.base then Managed(t, j.render) && t.version == s.version + 1 && t.job.None? && t.raising == s.raising
      else t == s.(job := None)
  {
    hide Parse, Baseline, SyncText, Conflicts, RenderKeys, FreshRenders.FreshSegments, Render;
  }

  /** Accepting a proposed layout puts the document under sync again; declining it
      leaves everything but the proposal's status as it was. */
  lemma AdoptionExactly(hash: Hasher, s: State, c: nat, accept: bool, render: seq<Block>)
    requires c < |s.changes| && s.changes[c].status == New && s.changes[c].proposal.kind.DocAdopt?
    requires s.changes[c].proposal.generated == Render(FreshRenders.FreshSegments(render)) && BlockRender(hash, render)
    ensures var t := ResolveChange(hash, s, c, accept);
      && t.changes == s.changes[c := Change(s.changes[c].proposal, Acknowledged)]
      && t.job == s.job && t.raising == s.raising
      && (accept ==> Managed(t, render) && t.version == s.version + 1)
      && (!accept ==> t == s.(changes := t.changes))
  {
    hide Parse, Render, FreshRenders.FreshSegments, BlockRender, Decided;
    if accept {
      KeysOfRender(hash, render);
    }
  }

  lemma KeysOfRender(hash: Hasher, render: seq<Block>)
    requires BlockRender(hash, render)
    ensures Keys(Parse(Render(FreshRenders.FreshSegments(render)))) == RenderKeys(render)
  {
    hide Parse, Render;
    FreshRenders.FreshParses(render);
    var segs := FreshRenders.FreshSegments(render);
    BlocksAreKeys(segs);
    hide FreshRenders.FreshSegments;
  }

  lemma {:induction false} BlockHasKey(segs: seq<Segment>, key: string)
    ensures key in Keys(segs) <==> exists b :: b in BlocksOf(segs) && b.key == key
  {
    if segs != [] {
      BlockHasKey(segs[1..], key);
      KeyInRest(segs, key);
    }
  }

  lemma KeyInRest(segs: seq<Segment>, key: string)
    requires segs != []
    ensures key in Keys(segs) <==> (segs[0].Gen? && segs[0].block.key == key) || key in Keys(segs[1..])
  {
    if key in Keys(segs[1..]) {
      var i :| 0 <= i < |segs[1..]| && segs[1..][i].Gen? && segs[1..][i].block.key == key;
      assert segs[i + 1].Gen?;
    }
    if key in Keys(segs) {
      var i :| 0 <= i < |segs| && segs[i].Gen? && segs[i].block.key == key;
      assert i > 0 ==> segs[1..][i - 1] == segs[i];
    }
  }

  lemma BlocksAreKeys(segs: seq<Segment>)
    ensures Keys(segs) == RenderKeys(BlocksOf(segs))
  {
    hide Keys, BlocksOf;
    forall key ensures key in Keys(segs) <==> key in RenderKeys(BlocksOf(segs)) {
      BlockHasKey(segs, key);
    }
  }

  /** From then on a refresh with the same keys raises nothing, and leaves exactly the
      new render if and only if blocks with one key are equal in it. */
  lemma ManagedRefreshes(hash: Hasher, s: State, before: seq<Block>, after: seq<Block>)
    requires Managed(s, before) && s.job.None? && s.raising == []
    requires BlockRender(hash, before) && BlockRender(hash, after) && FreshRenders.SameKeys(before, after)
    ensures var t := Next(hash, Next(hash, s, BeginSync(after)), WriteSync);
      && t.raising == [] && t.changes == s.changes && t.job.None?
      && (Managed(t, after) <==> FreshRenders.Indexed(after))
  {
    hide Parse, Render, FreshRenders.FreshSegments, RenderKeys, SyncText, Conflicts, FreshRenders.Indexed, Layout.ValidDoc, FinishSync, Sync.BlockRender;
    var b := Next(hash, s, BeginSync(after));
    FinishManaged(hash, b, before, after);
  }

  /** A sync nothing came between: its merge is the content, its render is remembered. */
  lemma UndisturbedSync(hash: Hasher, s: State, prev: set<string>)
    requires s.job.Some? && s.job.value.base == s.version && s.job.value.content == s.content
    requires Baseline(s.job.value) == Some(prev)
    ensures var j, t := s.job.value, FinishSync(hash, s, s.job.value);
      && t.content == SyncText(hash, s.content, prev, j.render) && t.genKeys == Some(RenderKeys(j.render))
      && t.raising == Proposals(Conflicts(hash, ByKey(j.render), Parse(s.content)))
      && t.changes == s.changes && t.origin == s.origin && t.job.None?
  {
    hide Baseline, Parse, SyncText, Conflicts, RenderKeys, Proposals, ByKey;
  }

  lemma FinishManaged(hash: Hasher, s: State, before: seq<Block>, after: seq<Block>)
    requires s.job == Some(Job(s.version, s.content, s.genKeys, after)) && s.raising == [] && Managed(s, before)
    requires BlockRender(hash, before) && BlockRender(hash, after) && FreshRenders.SameKeys(before, after)
    ensures var t := FinishSync(hash, s, s.job.value);
      && t.raising == [] && t.changes == s.changes && t.job.None?
      && (Managed(t, after) <==> FreshRenders.Indexed(after))
  {
    hide FinishSync, Parse, Render, FreshRenders.FreshSegments, RenderKeys, SyncText, Conflicts;
    hide FreshRenders.Indexed, Sync.BlockRender, FreshRenders.SameKeys, ByKey;
    RenderIsValid(hash, after);
    FreshRenders.RefreshUntouched(hash, before, after);
    UndisturbedSync(hash, s, RenderKeys(before));
  }

  lemma RenderIsValid(hash: Hasher, render: seq<Block>)
    requires BlockRender(hash, render)
    ensures Layout.ValidDoc(render)
  {
  }
}
