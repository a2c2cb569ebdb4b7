/** One generated document in the store, and the steps that change it: human
    saves, syncs, and review decisions (backend/internal/doc/ownership.go). A
    sync reads the document, writes later under a version check, and then raises
    its proposals one by one; users may act in between. A connector has at most
    one sync in flight (backend/internal/sync/run.go), so a document has too. */
module Ownership {
  import Layout
  import opened Blocks
  import opened Merging
  import opened MergeLaws
  import opened Sync
  import opened Generated
  import opened FreshRenders

  datatype Origin = FromSync | Human
  datatype Status = New | Acknowledged | Dismissed
  datatype Kind = DocConflict | DocAdopt

  /** A proposal for review: for one block, or for the whole document (key ""). */
  datatype Proposal = Proposal(kind: Kind, key: string, human: string, generated: string, genHash: string)
  datatype Change = Change(proposal: Proposal, status: Status)

  datatype Write =
    | CreateWrite
    | HumanWrite
    | SyncWrite(prev: set<string>, render: seq<Block>)
    | LegacyWrite
    | ResolveWrite(proposal: Proposal, accept: bool)

  datatype Version = Version(content: string, write: Write)

  /** A sync in flight: the document as it was read, and the render to merge. */
  datatype Job = Job(base: nat, content: string, genKeys: Option<set<string>>, render: seq<Block>)

  datatype State = State(
    content: string,
    version: nat,
    genKeys: Option<set<string>>,
    origin: Origin,
    history: seq<Version>,
    changes: seq<Change>,
    job: Option<Job>,
    raising: seq<Proposal>)

  datatype Step =
    | Save(content: string)
    | BeginSync(render: seq<Block>)
    | WriteSync
    | RaiseNext
    | SetStatus(change: nat, status: Status)
    | Resolve(change: nat, accept: bool)

  // ---------------------------------------------------------------- the steps

  function Written(s: State, content: string, w: Write): State {
    s.(content := content, version := s.version + 1, history := s.history + [Version(content, w)])
  }

  function ToProposal(c: Conflict): Proposal {
    Proposal(DocConflict, c.key, c.human, c.generated.body, c.generated.hash)
  }

  function Proposals(cs: seq<Conflict>): seq<Proposal> {
    seq(|cs|, i requires 0 <= i < |cs| => ToProposal(cs[i]))
  }

  /** The keys of the last applied render, or the blocks present when none is stored. */
  function Baseline(j: Job): Option<set<string>> {
    if j.genKeys.Some? then j.genKeys
    else if BlocksOf(Parse(j.content)) != [] then Some(Keys(Parse(j.content)))
    else None
  }

  /** syncDoc after its read: merge, then write or touch, unless a save came in between. */
  function FinishSync(hash: Hasher, s: State, j: Job): State {
    var done := s.(job := None);
    var keys := Some(RenderKeys(j.render));
    match Baseline(j)
    case Some(prev) =>
      var content := SyncText(hash, j.content, prev, j.render);
      var raised := Proposals(Conflicts(hash, ByKey(j.render), Parse(j.content)));
      if content == j.content then done.(genKeys := keys, raising := raised)
      else if s.version == j.base then
        Written(done, content, SyncWrite(prev, j.render)).(genKeys := keys, raising := raised)
      else done
    case None =>
      var content := Render(FreshSegments(j.render));
      if HumanLast(s) then
        done.(origin := Human, raising := [Proposal(DocAdopt, "", j.content, content, hash(content))])
      else if s.version == j.base then Written(done, content, LegacyWrite).(genKeys := keys)
      else done
  }

  predicate HumanLast(s: State) {
    s.history != [] && ByPerson(s.history[|s.history| - 1].write)
  }

  /** A version with an author. */
  predicate ByPerson(w: Write) { w.HumanWrite? || w.ResolveWrite? }

  predicate SamePattern(a: Proposal, b: Proposal) { a.kind == b.kind && a.key == b.key }

  /** The latest change with the pattern of p among the first n, or -1. */
  function Latest(changes: seq<Change>, p: Proposal, n: nat): (r: int)
    requires n <= |changes|
    ensures -1 <= r < n
    ensures r >= 0 ==> SamePattern(changes[r].proposal, p)
    ensures forall i :: r < i < n ==> !SamePattern(changes[i].proposal, p)
  {
    if n == 0 then -1
    else if SamePattern(changes[n - 1].proposal, p) then n - 1
    else Latest(changes, p, n - 1)
  }

  /** raiseDocChange: repeats of the latest proposal are dropped, an outdated open one is dismissed. */
  function Raise(changes: seq<Change>, p: Proposal): seq<Change> {
    var i := Latest(changes, p, |changes|);
    if i >= 0 && changes[i].proposal.genHash == p.genHash then changes
    else
      var kept := if i >= 0 && changes[i].status == New
                  then changes[i := changes[i].(status := Dismissed)] else changes;
      kept + [Change(p, New)]
  }

  /** What a decision on a conflict turns the document's segments into, if its block is still there. */
  function Decided(hash: Hasher, segs: seq<Segment>, p: Proposal, accept: bool): Option<seq<Segment>> {
    var i := BlockIndexFrom(segs, p.key, 0);
    if i < 0 then None
    else Some(segs[i := if accept then Gen(NewBlock(hash, p.key, p.generated)) else Text(segs[i].block.body)])
  }

  function ResolveChange(hash: Hasher, s: State, c: nat, accept: bool): State
    requires c < |s.changes|
  {
    var p := s.changes[c].proposal;
    var done := s.(changes := s.changes[c := s.changes[c].(status := Acknowledged)]);
    if s.changes[c].status != New then s
    else if p.kind.DocAdopt? then
      if !accept then done
      else Written(done, p.generated, ResolveWrite(p, accept)).(genKeys := Some(Keys(Parse(p.generated))), origin := FromSync)
    else
      match Decided(hash, Parse(s.content), p, accept)
      case None => s
      case Some(segs) => Written(done, Render(segs), ResolveWrite(p, accept))
  }

  function Next(hash: Hasher, s: State, step: Step): State {
    match step
    case Save(content) => Written(s, content, HumanWrite)
    case BeginSync(render) =>
      if s.origin.FromSync? && s.job.None? && s.raising == []
      then s.(job := Some(Job(s.version, s.content, s.genKeys, render))) else s
    case WriteSync => if s.job.Some? then FinishSync(hash, s, s.job.value) else s
    case RaiseNext =>
      if s.raising == [] then s
      else s.(changes := Raise(s.changes, s.raising[0]), raising := s.raising[1..])
    case SetStatus(c, status) =>
      if c < |s.changes| && status != New then s.(changes := s.changes[c := s.changes[c].(status := status)]) else s
    case Resolve(c, accept) => if c < |s.changes| then ResolveChange(hash, s, c, accept) else s
  }

  function Run(hash: Hasher, s: State, steps: seq<Step>): State
    decreases |steps|
  {
    if steps == [] then s else Run(hash, Next(hash, s, steps[0]), steps[1..])
  }

  /** Renders are what NewBlock builds; one key may occur more than once. */
  ghost predicate ValidStep(hash: Hasher, step: Step) {
    step.BeginSync? ==> BlockRender(hash, step.render)
  }

  ghost predicate ValidSteps(hash: Hasher, steps: seq<Step>) {
    forall i :: 0 <= i < |steps| ==> ValidStep(hash, steps[i])
  }

  // ------------------------------------------------------------- the invariant

  /** Each version written by a sync is the merge of exactly its predecessor. */
  ghost predicate MergeOfPredecessor(hash: Hasher, history: seq<Version>, v: nat)
    requires v < |history|
  {
    var w := history[v].write;
    w.SyncWrite? ==>
      && v > 0
      && BlockRender(hash, w.render)
      && history[v].content == SyncText(hash, history[v - 1].content, w.prev, w.render)
      && history[v].content != history[v - 1].content
  }

  /** A legacy document is overwritten only if it has no block and a person did not
      write it last. */
  ghost predicate LegacyOfPredecessor(history: seq<Version>, v: nat)
    requires v < |history|
  {
    history[v].write.LegacyWrite? ==>
      && v > 0
      && BlocksOf(Parse(history[v - 1].content)) == []
      && !history[v - 1].write.HumanWrite? && !history[v - 1].write.ResolveWrite?
  }

  /** The first block with the proposal's key is replaced by the generated block, or
      turned into text that holds exactly its own body. */
  ghost predicate DecidedAt(hash: Hasher, segs: seq<Segment>, p: Proposal, accept: bool, at: int, content: string) {
    && FirstWithKey(segs, p.key, at)
    && content == Render(segs[at := if accept then Gen(NewBlock(hash, p.key, p.generated)) else Text(segs[at].block.body)])
  }

  ghost predicate DecidedFrom(hash: Hasher, segs: seq<Segment>, p: Proposal, accept: bool, content: string) {
    exists at :: DecidedAt(hash, segs, p, accept, at, content)
  }

  /** What a decision wrote is that, or the whole layout that was adopted. */
  ghost predicate DecisionOfPredecessor(hash: Hasher, history: seq<Version>, v: nat)
    requires v < |history|
  {
    var w := history[v].write;
    w.ResolveWrite? ==>
      && v > 0
      && (w.proposal.kind.DocAdopt? ==> w.accept && history[v].content == w.proposal.generated)
      && (w.proposal.kind.DocConflict? ==>
            DecidedFrom(hash, Parse(history[v - 1].content), w.proposal, w.accept, history[v].content))
  }

  ghost predicate VersionOk(hash: Hasher, history: seq<Version>, v: nat)
    requires v < |history|
  {
    MergeOfPredecessor(hash, history, v) && LegacyOfPredecessor(history, v) && DecisionOfPredecessor(hash, history, v)
  }

  ghost predicate HistoryOk(hash: Hasher, history: seq<Version>) {
    forall v :: 0 <= v < |history| ==> VersionOk(hash, history, v)
  }

  /** At most one open change per pattern, and it is the latest with that pattern. */
  ghost predicate OneOpen(changes: seq<Change>) {
    forall i, j :: 0 <= i < j < |changes| && SamePattern(changes[i].proposal, changes[j].proposal)
                   ==> changes[i].status != New
  }

  ghost predicate JobOk(hash: Hasher, s: State) {
    s.job.Some? ==>
      var j := s.job.value;
      && 1 <= j.base <= s.version
      && |s.history| == s.version
      && s.history[j.base - 1].content == j.content
      && BlockRender(hash, j.render)
      && s.raising == []
  }

  ghost predicate Inv(hash: Hasher, s: State) {
    && |s.history| == s.version >= 1
    && s.history[s.version - 1].content == s.content
    && HistoryOk(hash, s.history)
    && OneOpen(s.changes)
    && JobOk(hash, s)
  }

  /** A document as createGeneratedDoc stores it. */
  function Created(render: seq<Block>): State {
    var content := Render(FreshSegments(render));
    State(content, 1, Some(RenderKeys(render)), FromSync, [Version(content, CreateWrite)], [], None, [])
  }

  lemma CreatedIsOk(hash: Hasher, render: seq<Block>)
    ensures Inv(hash, Created(render))
    ensures forall key :: key in RenderKeys(render) ==> Remembered(Created(render), key)
  {
    hide BlockRender, SyncText, Parse, DecidedFrom, RenderKeys, FreshSegments, Render;
  }

  lemma WrittenOk(hash: Hasher, s: State, content: string, w: Write)
    requires Inv(hash, s) && VersionOk(hash, s.history + [Version(content, w)], |s.history|)
    ensures Inv(hash, Written(s, content, w))
  {
    hide OneOpen, VersionOk, BlockRender;
    var h := s.history + [Version(content, w)];
    forall v | 0 <= v < |h| ensures VersionOk(hash, h, v) {
      if v < |s.history| {
        EarlierVersion(hash, s.history, h, v);
      }
    }
  }

  lemma EarlierVersion(hash: Hasher, a: seq<Version>, b: seq<Version>, v: nat)
    requires v < |a| && a <= b && VersionOk(hash, a, v)
    ensures VersionOk(hash, b, v)
  {
    hide BlockRender, SyncText, DecidedFrom, Parse;
    assert b[v] == a[v];
    if v > 0 {
      assert b[v - 1] == a[v - 1];
    }
  }

  lemma PersonWrites(hash: Hasher, history: seq<Version>, content: string)
    ensures VersionOk(hash, history + [Version(content, HumanWrite)], |history|)
  {
  }

  lemma SyncWrites(hash: Hasher, history: seq<Version>, content: string, prev: set<string>, render: seq<Block>)
    requires history != [] && BlockRender(hash, render)
    requires content == SyncText(hash, history[|history| - 1].content, prev, render) && content != history[|history| - 1].content
    ensures VersionOk(hash, history + [Version(content, SyncWrite(prev, render))], |history|)
  {
    hide BlockRender, SyncText;
  }

  lemma LegacyWrites(hash: Hasher, history: seq<Version>, content: string)
    requires history != [] && BlocksOf(Parse(history[|history| - 1].content)) == [] && !ByPerson(history[|history| - 1].write)
    ensures VersionOk(hash, history + [Version(content, LegacyWrite)], |history|)
  {
    hide Parse;
  }

  lemma AdoptionWrites(hash: Hasher, history: seq<Version>, p: Proposal)
    requires history != [] && p.kind.DocAdopt?
    ensures VersionOk(hash, history + [Version(p.generated, ResolveWrite(p, true))], |history|)
  {
    hide Parse;
  }

  /** A decision finds its block exactly when the document still has the key. */
  lemma DecidedMeans(hash: Hasher, segs: seq<Segment>, p: Proposal, accept: bool)
    ensures var d := Decided(hash, segs, p, accept);
      && (d.Some? <==> p.key in Keys(segs))
      && (d.Some? ==> DecidedFrom(hash, segs, p, accept, Render(d.value)))
  {
    hide Render, NewBlock, Keys;
    KeyIsFound(segs, p.key);
    var d := Decided(hash, segs, p, accept);
    if d.Some? {
      assert DecidedAt(hash, segs, p, accept, BlockIndexFrom(segs, p.key, 0), Render(d.value));
    }
  }

  lemma DecisionWrites(hash: Hasher, history: seq<Version>, p: Proposal, accept: bool)
    requires history != [] && p.kind.DocConflict?
    requires Decided(hash, Parse(history[|history| - 1].content), p, accept).Some?
    ensures var d := Decided(hash, Parse(history[|history| - 1].content), p, accept);
      VersionOk(hash, history + [Version(Render(d.value), ResolveWrite(p, accept))], |history|)
  {
    hide Parse, Render, Decided, DecidedFrom;
    DecidedMeans(hash, Parse(history[|history| - 1].content), p, accept);
  }

  lemma MergeOk(hash: Hasher, s: State, prev: set<string>, render: seq<Block>)
    requires Inv(hash, s) && BlockRender(hash, render) && SyncText(hash, s.content, prev, render) != s.content
    ensures Inv(hash, Written(s, SyncText(hash, s.content, prev, render), SyncWrite(prev, render)))
  {
    hide BlockRender, SyncText, OneOpen, HistoryOk, VersionOk, JobOk;
    var content := SyncText(hash, s.content, prev, render);
    SyncWrites(hash, s.history, content, prev, render);
    WrittenOk(hash, s, content, SyncWrite(prev, render));
  }

  lemma OverwriteOk(hash: Hasher, s: State, content: string)
    requires Inv(hash, s) && BlocksOf(Parse(s.content)) == [] && !HumanLast(s)
    ensures Inv(hash, Written(s, content, LegacyWrite))
  {
    hide Inv, VersionOk, Parse, Written;
    LastIsContent(hash, s);
    LegacyWrites(hash, s.history, content);
    WrittenOk(hash, s, content, LegacyWrite);
  }

  lemma LastIsContent(hash: Hasher, s: State)
    requires Inv(hash, s)
    ensures s.history != [] && s.history[|s.history| - 1].content == s.content
  {
    hide OneOpen, HistoryOk, JobOk;
  }

  lemma BaselineMeans(j: Job)
    ensures Baseline(j).None? ==> BlocksOf(Parse(j.content)) == []
  {
    hide Parse;
  }

  lemma FinishSyncOk(hash: Hasher, s: State)
    requires Inv(hash, s) && s.job.Some?
    ensures Inv(hash, FinishSync(hash, s, s.job.value))
  {
    hide Inv, BlockRender, SyncText, Proposals, FreshSegments, RenderKeys, Parse, Conflicts, Baseline, Written;
    var j := s.job.value;
    var done := s.(job := None);
    EndJobOk(hash, s);
    BaselineMeans(j);
    assert HumanLast(done) == HumanLast(s);
    hide HumanLast;
    if s.version == j.base {
      match Baseline(j) {
        case Some(prev) => if SyncText(hash, j.content, prev, j.render) != j.content { MergeOk(hash, done, prev, j.render); }
        case None => if !HumanLast(s) { OverwriteOk(hash, done, Render(FreshSegments(j.render))); }
      }
    }
    WrittenEnds(hash, s);
    BookkeepingOk(hash, FinishSync(hash, s, j));
    BookkeepingOk(hash, done);
  }

  lemma WrittenEnds(hash: Hasher, s: State)
    requires s.job.Some?
    ensures FinishSync(hash, s, s.job.value).job.None?
    ensures forall t: State, content, w :: t.job.None? ==> Written(t, content, w).job.None?
  {
    hide SyncText, Proposals, Baseline, HumanLast, FreshSegments, RenderKeys, Parse, Conflicts;
  }

  /** The end of a job, and what its render must satisfy to be written. */
  lemma EndJobOk(hash: Hasher, s: State)
    requires Inv(hash, s) && s.job.Some?
    ensures Inv(hash, s.(job := None))
    ensures BlockRender(hash, s.job.value.render)
    ensures s.version == s.job.value.base ==> s.content == s.job.value.content
  {
    hide BlockRender, OneOpen, HistoryOk, JobOk;
    JobFacts(hash, s);
    NoJobOk(hash, s.(job := None));
  }

  lemma JobFacts(hash: Hasher, s: State)
    requires JobOk(hash, s) && s.job.Some? && |s.history| == s.version >= 1 && s.history[s.version - 1].content == s.content
    ensures BlockRender(hash, s.job.value.render)
    ensures s.version == s.job.value.base ==> s.content == s.job.value.content
  {
    hide BlockRender;
  }

  lemma NoJobOk(hash: Hasher, s: State)
    requires s.job.None?
    ensures JobOk(hash, s)
  {
  }

  /** Keys, origin and queued proposals are not constrained once the job has ended. */
  lemma BookkeepingOk(hash: Hasher, s: State)
    requires s.job.None?
    ensures forall keys, origin, raising ::
              Inv(hash, s.(genKeys := keys, origin := origin, raising := raising)) <==> Inv(hash, s)
  {
    hide OneOpen, HistoryOk, BlockRender;
  }

  lemma RaiseOk(changes: seq<Change>, p: Proposal)
    requires OneOpen(changes)
    ensures OneOpen(Raise(changes, p))
  {
    var r := Raise(changes, p);
    var i := Latest(changes, p, |changes|);
    forall a, b | 0 <= a < b < |r| && SamePattern(r[a].proposal, r[b].proposal) ensures r[a].status != New {
      if b < |changes| {
        assert SamePattern(changes[a].proposal, changes[b].proposal);
      } else {
        assert SamePattern(changes[a].proposal, p);
        assert a <= i;
        if a < i {
          assert SamePattern(changes[a].proposal, changes[i].proposal);
        }
      }
    }
  }

  lemma StatusOk(changes: seq<Change>, c: nat, status: Status)
    requires c < |changes| && status != New && OneOpen(changes)
    ensures OneOpen(changes[c := changes[c].(status := status)])
  {
    var r := changes[c := changes[c].(status := status)];
    forall a, b | 0 <= a < b < |r| && SamePattern(r[a].proposal, r[b].proposal) ensures r[a].status != New {
      assert SamePattern(changes[a].proposal, changes[b].proposal);
    }
  }

  lemma ResolveOk(hash: Hasher, s: State, c: nat, accept: bool)
    requires Inv(hash, s) && c < |s.changes|
    ensures Inv(hash, ResolveChange(hash, s, c, accept))
  {
    hide HistoryOk, VersionOk, OneOpen, Decided, BlockRender, Parse;
    var p := s.changes[c].proposal;
    StatusOk(s.changes, c, Acknowledged);
    var done := s.(changes := s.changes[c := s.changes[c].(status := Acknowledged)]);
    assert Inv(hash, done);
    if p.kind.DocAdopt? {
      if accept {
        AdoptionWrites(hash, s.history, p);
        WrittenOk(hash, done, p.generated, ResolveWrite(p, true));
      }
    } else {
      var d := Decided(hash, Parse(s.content), p, accept);
      if d.Some? {
        DecisionWrites(hash, s.history, p, accept);
        WrittenOk(hash, done, Render(d.value), ResolveWrite(p, accept));
      }
    }
  }

  lemma BeginOk(hash: Hasher, s: State, render: seq<Block>)
    requires Inv(hash, s) && BlockRender(hash, render) && s.job.None? && s.raising == []
    ensures Inv(hash, s.(job := Some(Job(s.version, s.content, s.genKeys, render))))
  {
    hide HistoryOk, OneOpen, BlockRender;
  }

  lemma ChangesOk(hash: Hasher, s: State, changes: seq<Change>, raising: seq<Proposal>)
    requires Inv(hash, s) && OneOpen(changes) && (s.job.Some? ==> raising == [])
    ensures Inv(hash, s.(changes := changes, raising := raising))
  {
    hide HistoryOk, OneOpen, BlockRender;
  }

  lemma QueueIsFree(hash: Hasher, s: State)
    requires Inv(hash, s)
    ensures OneOpen(s.changes) && (s.job.Some? ==> s.raising == [])
  {
    hide HistoryOk, OneOpen, BlockRender;
  }

  lemma NextOk(hash: Hasher, s: State, step: Step)
    requires Inv(hash, s) && ValidStep(hash, step)
    ensures Inv(hash, Next(hash, s, step))
  {
    hide Inv, OneOpen, FinishSync, ResolveChange, Raise, BlockRender, Written, VersionOk;
    QueueIsFree(hash, s);
    match step {
      case Save(content) => PersonWrites(hash, s.history, content); WrittenOk(hash, s, content, HumanWrite);
      case BeginSync(render) => if s.job.None? && s.raising == [] { BeginOk(hash, s, render); }
      case WriteSync => if s.job.Some? { FinishSyncOk(hash, s); }
      case RaiseNext =>
        if s.raising != [] {
          RaiseOk(s.changes, s.raising[0]);
          ChangesOk(hash, s, Raise(s.changes, s.raising[0]), s.raising[1..]);
        }
      case SetStatus(c, status) =>
        if c < |s.changes| && status != New {
          StatusOk(s.changes, c, status);
          ChangesOk(hash, s, s.changes[c := s.changes[c].(status := status)], s.raising);
        }
      case Resolve(c, accept) => if c < |s.changes| { ResolveOk(hash, s, c, accept); }
    }
  }

  /** Over every run of saves, syncs and decisions: versions written by sync merge
      exactly their predecessor, and each pattern has at most one open change,
      which is its latest. */
  lemma {:induction false} RunKeepsInvariant(hash: Hasher, s: State, steps: seq<Step>)
    requires Inv(hash, s) && ValidSteps(hash, steps)
    ensures Inv(hash, Run(hash, s, steps))
    decreases |steps|
  {
    hide Inv, Next, ValidStep;
    if steps != [] {
      assert ValidStep(hash, steps[0]);
      NextOk(hash, s, steps[0]);
      RunKeepsInvariant(hash, Next(hash, s, steps[0]), steps[1..]);
    }
  }

  // ---------------------------------------------------- human saves are never lost

  /** In every reachable history, what a sync wrote still holds all human work of
      the version before it: nothing but blank separators was added. */
  lemma SyncVersionsKeepHumanWork(hash: Hasher, s: State, steps: seq<Step>, v: nat)
    requires Inv(hash, s) && ValidSteps(hash, steps)
    requires var h := Run(hash, s, steps).history; v < |h| && h[v].write.SyncWrite?
    ensures var h := Run(hash, s, steps).history;
            && v > 0
            && var before := Parse(h[v - 1].content);
               var after := Merged(hash, before, h[v].write.prev, h[v].write.render);
               && h[v].content == Render(after)
               && SeparatorsAdded(HumanPieces(hash, before), HumanPieces(hash, after))
  {
    hide Run, Parse, Merged, HumanPieces;
    RunKeepsInvariant(hash, s, steps);
    var h := Run(hash, s, steps).history;
    assert VersionOk(hash, h, v);
    MergeKeepsHumanWork(hash, Parse(h[v - 1].content), h[v].write.prev, h[v].write.render);
  }

  /** While a sync is in flight and has not written, its job stays as it was read
      and versions only grow, by a save at least by one. */
  lemma {:induction false} JobStays(hash: Hasher, s: State, steps: seq<Step>)
    requires s.job.Some? && forall i :: 0 <= i < |steps| ==> !steps[i].WriteSync?
    ensures var t := Run(hash, s, steps);
            && t.job == s.job && t.version >= s.version
            && ((exists i :: 0 <= i < |steps| && steps[i].Save?) ==> t.version > s.version)
    decreases |steps|
  {
    hide Raise, Decided, Keys;
    if steps != [] {
      var t := Next(hash, s, steps[0]);
      assert t.job == s.job && t.version >= s.version && (steps[0].Save? ==> t.version > s.version);
      hide Next;
      JobStays(hash, t, steps[1..]);
      if i :| 0 <= i < |steps| && steps[i].Save? && i > 0 {
        assert steps[1..][i - 1].Save?;
      }
    }
  }

  /** A save made while a sync is in flight wins, whatever else happens before the
      sync gets to write: it changes neither content nor version nor history. */
  lemma ConcurrentSaveWins(hash: Hasher, s: State, steps: seq<Step>, k: nat)
    requires Inv(hash, s) && s.job.Some?
    requires k < |steps| && steps[k].Save? && forall i :: 0 <= i < |steps| ==> !steps[i].WriteSync?
    ensures var saved := Run(hash, s, steps);
            var after := Next(hash, saved, WriteSync);
            after.content == saved.content && after.version == saved.version && after.history == saved.history
  {
    hide Inv, Run, FinishSync;
    JobBase(hash, s);
    JobStays(hash, s, steps);
    StaleSyncWritesNothing(hash, Run(hash, s, steps));
  }

  lemma StaleSyncWritesNothing(hash: Hasher, s: State)
    requires s.job.Some? && s.version != s.job.value.base
    ensures var after := FinishSync(hash, s, s.job.value);
            after.content == s.content && after.version == s.version && after.history == s.history
  {
    hide SyncText, Proposals, Baseline, Conflicts, FreshSegments, Parse;
  }

  lemma JobBase(hash: Hasher, s: State)
    requires Inv(hash, s) && s.job.Some?
    ensures s.job.value.base <= s.version
  {
  }

  // ------------------------------------------------ a deleted block stays deleted

  /** The key is in the last applied render, and a sync in flight either knows it
      too or can no longer write. */
  ghost predicate Remembered(s: State, key: string) {
    && s.genKeys.Some? && key in s.genKeys.value
    && (s.job.Some? ==>
          && key in RenderKeys(s.job.value.render)
          && s.job.value.genKeys.Some?
          && (s.job.value.base == s.version ==> key in s.job.value.genKeys.value))
  }

  /** Every later render has the key, and no whole-document proposal is accepted. */
  ghost predicate KeepsRendering(s: State, step: Step, key: string) {
    && (step.BeginSync? ==> key in RenderKeys(step.render))
    && (step.Resolve? && step.change < |s.changes| && step.accept
        ==> s.changes[step.change].proposal.kind.DocConflict?)
  }

  ghost predicate KeepsRenderingAll(hash: Hasher, s: State, steps: seq<Step>, key: string)
    decreases |steps|
  {
    steps == [] || (KeepsRendering(s, steps[0], key)
                    && KeepsRenderingAll(hash, Next(hash, s, steps[0]), steps[1..], key))
  }

  /** No version from v on was written by a sync that took the key for a new one. */
  ghost predicate NeverNew(history: seq<Version>, from: nat, key: string) {
    forall v :: from <= v < |history| && history[v].write.SyncWrite? ==> key in history[v].write.prev
  }

  lemma FinishSyncRemembers(hash: Hasher, s: State, key: string)
    requires Inv(hash, s) && s.job.Some? && Remembered(s, key)
    ensures var s' := FinishSync(hash, s, s.job.value);
            && Remembered(s', key)
            && s.history <= s'.history
            && NeverNew(s'.history, |s.history|, key)
  {
    hide SyncText, Proposals, Inv, RenderKeys;
    JobBase(hash, s);
    assert Baseline(s.job.value) == s.job.value.genKeys;
  }

  /** A write that is not a sync's: the key stays remembered. */
  lemma WriteRemembers(s: State, content: string, w: Write, key: string)
    requires Remembered(s, key) && !w.SyncWrite? && (s.job.Some? ==> s.job.value.base <= s.version)
    ensures var s' := Written(s, content, w);
            && Remembered(s', key)
            && s.history <= s'.history
            && NeverNew(s'.history, |s.history|, key)
  {
    hide RenderKeys;
  }

  lemma BeginRemembers(s: State, render: seq<Block>, key: string)
    requires Remembered(s, key) && key in RenderKeys(render)
    ensures Remembered(s.(job := Some(Job(s.version, s.content, s.genKeys, render))), key)
  {
    hide RenderKeys;
  }

  lemma OtherFieldsRemember(s: State, changes: seq<Change>, raising: seq<Proposal>, key: string)
    requires Remembered(s, key)
    ensures Remembered(s.(changes := changes, raising := raising), key)
    ensures NeverNew(s.history, |s.history|, key)
  {
    hide RenderKeys;
  }

  lemma ResolveRemembers(hash: Hasher, s: State, c: nat, accept: bool, key: string)
    requires c < |s.changes| && Remembered(s, key) && (s.job.Some? ==> s.job.value.base <= s.version)
    requires accept ==> s.changes[c].proposal.kind.DocConflict?
    ensures var s' := ResolveChange(hash, s, c, accept);
            && Remembered(s', key)
            && s.history <= s'.history
            && NeverNew(s'.history, |s.history|, key)
  {
    hide Remembered, Written, Decided, NeverNew;
    var done := s.(changes := s.changes[c := s.changes[c].(status := Acknowledged)]);
    OtherFieldsRemember(s, s.changes, s.raising, key);
    OtherFieldsRemember(s, done.changes, s.raising, key);
    assert done == s.(changes := done.changes, raising := s.raising);
    var d := Decided(hash, Parse(s.content), s.changes[c].proposal, accept);
    if d.Some? {
      WriteRemembers(done, Render(d.value), ResolveWrite(s.changes[c].proposal, accept), key);
    }
  }

  lemma NextRemembers(hash: Hasher, s: State, step: Step, key: string)
    requires Inv(hash, s) && Remembered(s, key) && KeepsRendering(s, step, key)
    ensures var s' := Next(hash, s, step);
            && Remembered(s', key)
            && s.history <= s'.history
            && NeverNew(s'.history, |s.history|, key)
  {
    hide Inv, Remembered, NeverNew, FinishSync, ResolveChange, Raise, Written, RenderKeys;
    if s.job.Some? {
      JobBase(hash, s);
    }
    OtherFieldsRemember(s, s.changes, s.raising, key);
    match step {
      case Save(content) => WriteRemembers(s, content, HumanWrite, key);
      case BeginSync(render) => BeginRemembers(s, render, key);
      case WriteSync => if s.job.Some? { FinishSyncRemembers(hash, s, key); }
      case RaiseNext => if s.raising != [] { OtherFieldsRemember(s, Raise(s.changes, s.raising[0]), s.raising[1..], key); }
      case SetStatus(c, status) =>
        if c < |s.changes| {
          OtherFieldsRemember(s, s.changes[c := s.changes[c].(status := status)], s.raising, key);
        }
      case Resolve(c, accept) => if c < |s.changes| { ResolveRemembers(hash, s, c, accept, key); }
    }
  }

  lemma {:induction false} RunRemembers(hash: Hasher, s: State, steps: seq<Step>, key: string, from: nat)
    requires Inv(hash, s) && ValidSteps(hash, steps)
    requires Remembered(s, key) && KeepsRenderingAll(hash, s, steps, key)
    requires from <= |s.history| && NeverNew(s.history, from, key)
    ensures var s' := Run(hash, s, steps);
            Remembered(s', key) && NeverNew(s'.history, from, key)
    decreases |steps|
  {
    hide Inv, Next, Remembered, KeepsRendering;
    if steps != [] {
      var s1 := Next(hash, s, steps[0]);
      assert ValidStep(hash, steps[0]);
      NextOk(hash, s, steps[0]);
      NextRemembers(hash, s, steps[0], key);
      forall v | from <= v < |s1.history| && s1.history[v].write.SyncWrite?
        ensures key in s1.history[v].write.prev
      {
        if v < |s.history| {
          assert s1.history[v] == s.history[v];
        }
      }
      RunRemembers(hash, s1, steps[1..], key, from);
    }
  }

  /** A block the user deleted or kept as text is never re-inserted: over every
      run in which the renders go on having its key, no sync adds a block with
      that key, and unless taking out other blocks closes up human text into one,
      the text written holds no more such blocks than the text before. */
  lemma DeletedStaysDeleted(hash: Hasher, s: State, steps: seq<Step>, key: string, v: nat)
    requires Inv(hash, s) && ValidSteps(hash, steps)
    requires Remembered(s, key) && KeepsRenderingAll(hash, s, steps, key)
    requires var h := Run(hash, s, steps).history; |s.history| <= v < |h| && h[v].write.SyncWrite?
    ensures var h := Run(hash, s, steps).history;
            && v > 0
            && var before := Parse(h[v - 1].content);
               && Count(key, Merged(hash, before, h[v].write.prev, h[v].write.render)) <= Count(key, before)
               && (CleanCut(hash, h[v - 1].content, h[v].write.render) ==>
                     Count(key, Parse(h[v].content)) <= Count(key, before))
  {
    hide Run, Parse, Merged, Remembered, KeepsRenderingAll, CleanCut, Count;
    RunKeepsInvariant(hash, s, steps);
    RunRemembers(hash, s, steps, key, |s.history|);
    var h := Run(hash, s, steps).history;
    assert VersionOk(hash, h, v);
    var w, before := h[v].write, Parse(h[v - 1].content);
    var after := Merged(hash, before, w.prev, w.render);
    MergeKeyCount(hash, before, w.prev, w.render, key);
    if CleanCut(hash, h[v - 1].content, w.render) {
      MergeReparsesExactly(hash, h[v - 1].content, w.prev, w.render);
      CountByBlocks(key, after);
      CountByBlocks(key, Parse(h[v].content));
    }
  }

  function CountBlocks(key: string, blocks: seq<Block>): nat {
    if blocks == [] then 0 else (if blocks[0].key == key then 1 else 0) + CountBlocks(key, blocks[1..])
  }

  lemma {:induction false} CountByBlocks(key: string, segs: seq<Segment>)
    ensures Count(key, segs) == CountBlocks(key, BlocksOf(segs))
  {
    if segs != [] {
      CountByBlocks(key, segs[1..]);
      if segs[0].Gen? {
        assert BlocksOf(segs)[1..] == BlocksOf(segs[1..]);
      } else {
        assert BlocksOf(segs) == BlocksOf(segs[1..]);
      }
    }
  }

  /** Deleting a block by a save starts such a run, even while a sync is in flight. */
  lemma SaveStartsRemembering(hash: Hasher, s: State, content: string, key: string)
    requires Inv(hash, s) && s.genKeys.Some? && key in s.genKeys.value
    requires s.job.Some? ==> s.job.value.genKeys.Some? && key in RenderKeys(s.job.value.render)
    ensures Remembered(Next(hash, s, Save(content)), key)
  {
    hide Inv;
    if s.job.Some? {
      JobBase(hash, s);
    }
  }

  // ------------------------------------------------------ accepting a proposal

  lemma {:induction false} ConflictMember(hash: Hasher, fm: map<string, Block>, segs: seq<Segment>, key: string)
    ensures (exists c :: c in Conflicts(hash, fm, segs) && c.key == key)
            <==> (exists i :: 0 <= i < |segs| && ClashesAt(hash, fm, segs, i, key))
  {
    hide ConflictOne, ClashesAt;
    if segs != [] {
      ConflictMember(hash, fm, segs[1..], key);
      ConflictFirst(hash, fm, segs, key);
    }
  }

  /** Splitting off the first segment on both sides of ConflictMember. */
  lemma ConflictFirst(hash: Hasher, fm: map<string, Block>, segs: seq<Segment>, key: string)
    requires segs != []
    ensures (exists c :: c in Conflicts(hash, fm, segs) && c.key == key)
            <==> ClashesAt(hash, fm, segs, 0, key) || (exists c :: c in Conflicts(hash, fm, segs[1..]) && c.key == key)
    ensures (exists i :: 0 <= i < |segs| && ClashesAt(hash, fm, segs, i, key))
            <==> ClashesAt(hash, fm, segs, 0, key)
                 || (exists i :: 0 <= i < |segs[1..]| && ClashesAt(hash, fm, segs[1..], i, key))
  {
    var one, rest := ConflictOne(hash, fm, segs[0]), Conflicts(hash, fm, segs[1..]);
    assert Conflicts(hash, fm, segs) == one + rest;
    assert forall c :: c in one + rest <==> c in one || c in rest;
    if ClashesAt(hash, fm, segs, 0, key) {
      assert one[0] in one;
    }
    forall i | 0 <= i < |segs[1..]| ensures ClashesAt(hash, fm, segs[1..], i, key) == ClashesAt(hash, fm, segs, i + 1, key) {
    }
    if exists i :: 0 <= i < |segs| && ClashesAt(hash, fm, segs, i, key) {
      var i :| 0 <= i < |segs| && ClashesAt(hash, fm, segs, i, key);
      if i > 0 {
        assert ClashesAt(hash, fm, segs[1..], i - 1, key);
      }
    }
  }

  /** The block at i carries the key, was edited, and its upstream changed. */
  ghost predicate ClashesAt(hash: Hasher, fm: map<string, Block>, segs: seq<Segment>, i: int, key: string)
    requires 0 <= i < |segs|
  {
    segs[i].Gen? && segs[i].block.key == key && ConflictOne(hash, fm, segs[i]) != []
  }

  lemma GapsReplace(segs: seq<Segment>, i: nat, b: Block)
    requires i < |segs| && segs[i].Gen?
    ensures Layout.Gaps(segs[i := Gen(b)]) == Layout.Gaps(segs)
  {
    hide Layout.Gaps;
    var a, c := segs[..i], segs[i + 1..];
    assert segs == a + ([segs[i]] + c);
    assert segs[i := Gen(b)] == a + ([Gen(b)] + c);
    Layout.GapsConcat(a, [segs[i]] + c);
    Layout.GapsConcat(a, [Gen(b)] + c);
    Layout.GapsConcat([segs[i]], c);
    Layout.GapsConcat([Gen(b)], c);
    GapsSingle(segs[i]);
    GapsSingle(Gen(b));
  }

  /** Replacing one block by another keeps the document readable, whatever its text holds. */
  lemma ReplaceReparses(content: string, i: nat, b: Block)
    requires var segs := Parse(content); i < |segs| && segs[i].Gen?
    requires Layout.WfBlock(b)
    ensures var segs := Parse(content)[i := Gen(b)];
            && BlocksOf(Parse(Render(segs))) == BlocksOf(segs)
            && Layout.Gaps(Parse(Render(segs))) == Layout.Gaps(Parse(content))
  {
    hide Parse, Layout.WfBlock, Layout.AllInert;
    var segs := Parse(content);
    ParseLaysOut(content);
    WfBothWays(segs);
    var segs' := segs[i := Gen(b)];
    assert WfSegments(segs');
    WfBothWays(segs');
    GapsReplace(segs, i, b);
    Layout.ReparseExactly(segs');
    Layout.ReparseGaps(segs');
  }

  /** Accepting a proposal settles it: against any render, the document then has a
      conflict on that key exactly when another block carries the same key with an
      edit of its own and a hash that differs from the render's. */
  lemma AcceptSettles(hash: Hasher, s: State, c: nat, render: seq<Block>)
    requires c < |s.changes| && s.changes[c].status == New
    requires var p := s.changes[c].proposal;
             && p.kind.DocConflict?
             && BlockIndexFrom(Parse(s.content), p.key, 0) >= 0
    ensures var p := s.changes[c].proposal;
            var segs, fm := Parse(s.content), ByKey(render);
            var at := BlockIndexFrom(segs, p.key, 0);
            var after := Parse(ResolveChange(hash, s, c, true).content);
            (exists x :: x in Conflicts(hash, fm, after) && x.key == p.key)
            <==> (exists i :: 0 <= i < |segs| && i != at && ClashesAt(hash, fm, segs, i, p.key))
  {
    hide Parse, Conflicts, ByKey, ClashesAt, BlockIndexFrom, NewBlock, ResolveChange;
    var p := s.changes[c].proposal;
    var segs, fm, nb := Parse(s.content), ByKey(render), NewBlock(hash, p.key, p.generated);
    var at := BlockIndexFrom(segs, p.key, 0);
    var segs' := segs[at := Gen(nb)];
    AcceptWrites(hash, s, c);
    ConflictsByBlocks(hash, fm, segs');
    ConflictsByBlocks(hash, fm, Parse(Render(segs')));
    ConflictMember(hash, fm, segs', p.key);
    NoClash(hash, fm, segs', at, p.key);
    SameClashes(hash, fm, segs, segs', at, p.key);
  }

  /** What accepting a proposal writes, and that it reads back. */
  lemma AcceptWrites(hash: Hasher, s: State, c: nat)
    requires c < |s.changes| && s.changes[c].status == New && s.changes[c].proposal.kind.DocConflict?
    requires BlockIndexFrom(Parse(s.content), s.changes[c].proposal.key, 0) >= 0
    ensures var p := s.changes[c].proposal;
            var segs, nb := Parse(s.content), NewBlock(hash, p.key, p.generated);
            var at := BlockIndexFrom(segs, p.key, 0);
            && !nb.Edited(hash) && segs[at].Gen?
            && ResolveChange(hash, s, c, true).content == Render(segs[at := Gen(nb)])
            && BlocksOf(Parse(Render(segs[at := Gen(nb)]))) == BlocksOf(segs[at := Gen(nb)])
  {
    hide Parse, Layout.WfBlock, NewBlock;
    var p := s.changes[c].proposal;
    var at := BlockIndexFrom(Parse(s.content), p.key, 0);
    ParsedKeyIsValid(s.content, at);
    NewBlockIsSound(hash, p.key, p.generated);
    ReplaceReparses(s.content, at, NewBlock(hash, p.key, p.generated));
  }

  lemma ParsedKeyIsValid(content: string, i: int)
    requires var segs := Parse(content); 0 <= i < |segs| && segs[i].Gen?
    ensures ValidKey(Parse(content)[i].block.key)
  {
    hide Parse;
    ParseLaysOut(content);
    WfBothWays(Parse(content));
  }

  lemma NoClash(hash: Hasher, fm: map<string, Block>, segs: seq<Segment>, at: nat, key: string)
    requires at < |segs| && segs[at].Gen? && !segs[at].block.Edited(hash)
    ensures !ClashesAt(hash, fm, segs, at, key)
  {
  }

  lemma SameClashes(hash: Hasher, fm: map<string, Block>, a: seq<Segment>, b: seq<Segment>, at: nat, key: string)
    requires |a| == |b| && at < |a| && forall i :: 0 <= i < |a| && i != at ==> a[i] == b[i]
    requires !ClashesAt(hash, fm, b, at, key)
    ensures (exists i :: 0 <= i < |b| && ClashesAt(hash, fm, b, i, key))
            <==> (exists i :: 0 <= i < |a| && i != at && ClashesAt(hash, fm, a, i, key))
  {
    forall i | 0 <= i < |a| && i != at ensures ClashesAt(hash, fm, a, i, key) == ClashesAt(hash, fm, b, i, key) {
      assert a[i] == b[i];
    }
  }
}
