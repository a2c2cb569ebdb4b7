/** What holds in every state a scan can reach, whatever the interleaving of its
    goroutines, of users and of the clock. */
module ScanSafety {
  import opened ScanTargets
  import opened ScanLifecycle

  /** The addresses that first came from one source. */
  ghost function From<A>(targets: map<A, Source>, source: Source): set<A> {
    set a | a in targets && targets[a] == source
  }

  // ------------------------------------------------------------- invariants

  /** The address budget: counters by first source, the total and the limit. */
  ghost predicate Budget<A(!new)>(allowed: A -> bool, s: Scan<A>) {
    && s.range == |From(s.targets, FromRange)|
    && s.inventory == |From(s.targets, FromInventory)|
    && s.passive == |From(s.targets, FromPassive)|
    && s.total == |s.targets| <= MAX_ADDRESSES
    && forall a :: a in s.targets ==> allowed(a)
  }

  /** Every address that answered is a target or was skipped, and an address is
      skipped only when the budget is full. */
  ghost predicate Answers<A>(s: Scan<A>) {
    Noted(s.passiveSeen, s.targets.Keys, s.passiveAnswered, s.skippedPassive, s.skippedInventory)
  }

  ghost predicate Noted<A>(seen: set<A>, keys: set<A>, answered: nat, skippedPassive: nat, skippedInventory: nat) {
    && answered == |seen|
    && skippedPassive == |seen - keys|
    && (skippedPassive > 0 || skippedInventory > 0 ==> |keys| == MAX_ADDRESSES)
  }

  /** The scanner only touches admitted addresses and counts each at most once. */
  ghost predicate Hosts<A>(s: Sys<A>) {
    var r := s.runner;
    && r.seen <= s.scan.targets.Keys
    && r.active <= r.seen && r.replied <= r.seen && r.finished <= r.seen
    && r.active !! r.finished
  }

  ghost predicate BoundedReport<A>(r: Runner<A>, p: Progress) {
    p.done <= |r.finished| && p.total <= |r.seen| && p.answered <= |r.replied|
  }

  /** No count, in flight or delivered, is ahead of the truth. */
  ghost predicate Counters<A>(s: Sys<A>) {
    var r := s.runner;
    && s.scan.done <= |r.finished| && s.scan.answered <= |r.replied|
    && (forall d <- r.counted :: d <= |r.finished|)
    && (forall p <- r.reports :: BoundedReport(r, p))
  }

  /** The channel holds addresses the passive source had admitted. */
  ghost predicate Channel<A>(s: Sys<A>) {
    |s.late| + |s.admitting| <= s.scan.passive
  }

  ghost predicate CandidatesKeyed<A>(s: Scan<A>) {
    && (forall i, j :: 0 <= i < j < |s.candidates| ==> CandidateKey(s.candidates[i]) != CandidateKey(s.candidates[j]))
    && (forall i :: 0 <= i < |s.candidates| ==> CandidateKey(s.candidates[i]) in s.candidateKeys)
    && (forall i, j :: 0 <= i < j < |s.tls| ==> TlsKey(s.tls[i]) != TlsKey(s.tls[j]))
    && (forall i :: 0 <= i < |s.tls| ==> TlsKey(s.tls[i]) in s.tlsKeys)
  }

  ghost predicate Located<A>(targets: map<A, Source>, a: A, o: Origin) {
    a in targets && o == Origin(targets[a])
  }

  /** Everything found is on an admitted address and carries its first source. */
  ghost predicate Origins<A(!new)>(s: Sys<A>) {
    && (forall i :: 0 <= i < |s.scan.candidates| ==> Located(s.scan.targets, s.scan.candidates[i].address, s.scan.candidates[i].origin))
    && (forall i :: 0 <= i < |s.scan.tls| ==> Located(s.scan.targets, s.scan.tls[i].address, s.scan.tls[i].origin))
    && (forall c :: c in s.runner.prepared ==> Located(s.scan.targets, c.address, c.origin))
  }

  /** One reason for a cancellation at most, and no other way to stop the scan. */
  ghost predicate Reasons<A>(s: Sys<A>) {
    && (s.scan.cancelledBy == "" || s.scan.cancelReason == "")
    && (!s.scan.cancelled ==> s.scan.cancelledBy == "" && s.scan.cancelReason == "")
    && (s.scan.state == Cancelled ==> s.scan.cancelled)
    && (s.scan.state == Completed ==> !s.scan.cancelled)
    && (s.scan.state == Running && s.ctx == Stopped ==> s.scan.cancelled || s.runner.at == Panicked)
    && (s.scan.state == Running ==> !s.scan.partial)
  }

  ghost predicate Placed<A>(s: Sys<A>, a: A) {
    a in s.runner.seen || a in s.runner.todo || a in s.late || a in s.admitting
  }

  /** While nothing has stopped the scan, no admitted address is forgotten: it is
      waiting, being scanned or counted as done. */
  ghost predicate Places<A(!new)>(s: Sys<A>) {
    s.ctx == Live ==>
      && (forall a :: a in s.scan.targets ==> Placed(s, a))
      && s.runner.seen == s.runner.active + s.runner.finished
  }

  /** While nothing has stopped the scan, the runner leaves no work behind. */
  ghost predicate Stages<A>(s: Sys<A>) {
    var r := s.runner;
    s.ctx == Live ==>
      && s.scan.state == Running && r.at != Panicked
      && (r.at != AtHosts ==> r.todo == [])
      && (s.passiveOver ==> s.admitting == {})
      && (r.at == Returned ==> Idle(r) && s.late == [] && s.passiveOver)
  }

  ghost predicate InFlight<A>(r: Runner<A>, d: nat) {
    d in r.counted || exists p :: p in r.reports && p.done == d
  }

  /** The highest count is with the manager or on its way. */
  ghost predicate Reported<A>(s: Sys<A>) {
    s.scan.state == Running ==> |s.runner.finished| <= s.scan.done || InFlight(s.runner, |s.runner.finished|)
  }

  /** Partial is exactly: some address was not scanned to the end. */
  ghost predicate Honest<A>(s: Scan<A>) {
    s.state == Completed ==> (s.partial <==> s.done < s.total)
  }

  // ------------------------------------------------------------- set sizes

  lemma CardLe<T>(a: set<T>, b: set<T>)
    requires a <= b
    ensures |a| <= |b|
  {
    assert b == a + (b - a);
  }

  lemma FromAddOne<A>(targets: map<A, Source>, a: A, source: Source, x: Source)
    requires a !in targets
    ensures |From(targets[a := source], x)| == |From(targets, x)| + if x == source then 1 else 0
  {
    hide From;
    FromAddSet(targets, a, source, x);
  }

  lemma FromAddSet<A>(targets: map<A, Source>, a: A, source: Source, x: Source)
    requires a !in targets
    ensures a !in From(targets, x)
    ensures x == source ==> From(targets[a := source], x) == From(targets, x) + {a}
    ensures x != source ==> From(targets[a := source], x) == From(targets, x)
  {
  }

  lemma FromAdd<A>(targets: map<A, Source>, a: A, source: Source)
    requires a !in targets
    ensures forall x :: |From(targets[a := source], x)| == |From(targets, x)| + if x == source then 1 else 0
  {
    forall x: Source
      ensures |From(targets[a := source], x)| == |From(targets, x)| + if x == source then 1 else 0
    {
      FromAddOne(targets, a, source, x);
    }
  }

  lemma FromSum<A>(targets: map<A, Source>)
    ensures |From(targets, FromRange)| + |From(targets, FromInventory)| + |From(targets, FromPassive)| == |targets|
  {
    assert targets.Keys == From(targets, FromRange) + From(targets, FromInventory) + From(targets, FromPassive);
  }

  // ---------------------------------------- what each kind of event can touch

  ghost predicate SameBudget<A>(s: Scan<A>, t: Scan<A>) {
    && t.targets == s.targets && t.range == s.range && t.inventory == s.inventory && t.passive == s.passive
    && t.passiveSeen == s.passiveSeen && t.passiveAnswered == s.passiveAnswered
    && t.skippedPassive == s.skippedPassive && t.skippedInventory == s.skippedInventory
  }

  ghost predicate SameCounts<A>(s: Scan<A>, t: Scan<A>) {
    t.done == s.done && t.answered == s.answered
  }

  ghost predicate SameFindings<A>(s: Scan<A>, t: Scan<A>) {
    && t.candidates == s.candidates && t.candidateKeys == s.candidateKeys
    && t.tls == s.tls && t.tlsKeys == s.tlsKeys
  }

  ghost predicate SameHosts<A>(r: Runner<A>, q: Runner<A>) {
    && q.seen == r.seen && q.active == r.active && q.replied == r.replied && q.finished == r.finished
  }

  ghost predicate SameMessages<A>(r: Runner<A>, q: Runner<A>) {
    q.counted == r.counted && q.reports == r.reports
  }

  /** Which part of the runner each kind of event can change. */
  lemma FrameRunner<A(!new)>(allowed: A -> bool, ports: bool, s: Sys<A>, e: Event<A>)
    requires !e.Schedule? && !e.TakeLate? && !e.Reply? && !e.FinishHost? && !e.Abandon?
    ensures var r, q := s.runner, Next(allowed, ports, s, e).runner;
      q == if e.HostsDone? || e.Return? || e.Panic? then r.(at := q.at)
           else if e.ReadCounters? || e.Deliver? then r.(counted := q.counted, reports := q.reports)
           else if e.Prepare? || e.Commit? then r.(prepared := q.prepared)
           else r
  {
    hide Idle, Scheduled, AdmitPassive, OnCandidate, OnTlsTarget, OnProgress, CancelledBy, ShutDown, Ended, Stop, OriginOf;
  }

  /** Which events can change the scan's record at all. */
  lemma FrameScan<A(!new)>(allowed: A -> bool, ports: bool, s: Sys<A>, e: Event<A>)
    ensures var t := Next(allowed, ports, s, e).scan;
      t == if !Enabled(s, e) then s.scan
           else match e
             case Deliver(p) => OnProgress(s.scan, p)
             case Commit(c) => OnCandidate(s.scan, c)
             case FoundTls(h, port) => OnTlsTarget(s.scan, s.ctx, TlsTarget(h, port, NoOrigin))
             case Answer(a) => AdmitPassive(allowed, s.scan, s.ctx, a).0
             case CancelBy(user) => CancelledBy(s.scan, user)
             case Shutdown => ShutDown(s.scan)
             case End => Ended(s.scan, s.runner.at == Panicked, s.ctx)
             case _ => s.scan
  {
    hide Idle, Scheduled, AdmitPassive, OnCandidate, OnTlsTarget, OnProgress, ShutDown, Ended, Stop, OriginOf;
  }

  lemma FrameBudget<A(!new)>(allowed: A -> bool, ports: bool, s: Sys<A>, e: Event<A>)
    ensures var t := Next(allowed, ports, s, e);
      !e.Answer? ==> SameBudget(s.scan, t.scan) && (t.scan.total == s.scan.total || e.Deliver?)
  {
    FrameScan(allowed, ports, s, e);
    if !e.Answer? {
      hide Next, Enabled, AdmitPassive, OriginOf;
    }
  }

  lemma FrameCounts<A(!new)>(allowed: A -> bool, ports: bool, s: Sys<A>, e: Event<A>)
    ensures var t := Next(allowed, ports, s, e);
      && (!e.Deliver? ==> SameCounts(s.scan, t.scan))
  {
    FrameScan(allowed, ports, s, e);
    hide Next, Enabled, OriginOf;
  }

  lemma FrameFindings<A(!new)>(allowed: A -> bool, ports: bool, s: Sys<A>, e: Event<A>)
    ensures var t := Next(allowed, ports, s, e);
      !e.Commit? && !e.FoundTls? ==> SameFindings(s.scan, t.scan)
  {
    FrameScan(allowed, ports, s, e);
    hide Next, Enabled, OnCandidate, OnTlsTarget;
  }

  lemma FrameHosts<A(!new)>(allowed: A -> bool, ports: bool, s: Sys<A>, e: Event<A>)
    ensures var t := Next(allowed, ports, s, e);
      && (!e.Schedule? && !e.TakeLate? && !e.Reply? && !e.FinishHost? && !e.Abandon? ==> SameHosts(s.runner, t.runner))
  {
    hide Next;
    if !e.Schedule? && !e.TakeLate? && !e.Reply? && !e.FinishHost? && !e.Abandon? {
      FrameRunner(allowed, ports, s, e);
    }
  }

  lemma FrameMessages<A(!new)>(allowed: A -> bool, ports: bool, s: Sys<A>, e: Event<A>)
    requires !e.FinishHost? && !e.ReadCounters? && !e.Deliver?
    ensures SameMessages(s.runner, Next(allowed, ports, s, e).runner)
  {
    if e.Schedule? || e.TakeLate? {
      hide Idle;
    } else {
      hide Idle, AdmitPassive, OnCandidate, OnTlsTarget, OnProgress, CancelledBy, ShutDown, Ended, Stop, OriginOf, Scheduled;
    }
  }

  lemma FramePrepared<A(!new)>(allowed: A -> bool, ports: bool, s: Sys<A>, e: Event<A>)
    ensures var t := Next(allowed, ports, s, e);
      && (!e.Prepare? && !e.Commit? ==> t.runner.prepared == s.runner.prepared)
  {
    hide Idle, AdmitPassive, OnCandidate, OnTlsTarget, OnProgress, CancelledBy, ShutDown, Ended, Stop, OriginOf;
  }

  lemma FrameQueues<A(!new)>(allowed: A -> bool, ports: bool, s: Sys<A>, e: Event<A>)
    ensures var t := Next(allowed, ports, s, e);
      && (!e.Schedule? ==> t.runner.todo == s.runner.todo)
  {
    hide Idle, AdmitPassive, OnCandidate, OnTlsTarget, OnProgress;
  }

  lemma FrameChannel<A(!new)>(allowed: A -> bool, ports: bool, s: Sys<A>, e: Event<A>)
    ensures var t := Next(allowed, ports, s, e);
      && (!e.TakeLate? && !e.Send? ==> t.late == s.late)
      && (!e.Answer? && !e.Send? && !e.Drop? ==> t.admitting == s.admitting)
  {
    hide Idle, AdmitPassive, Scheduled, OnCandidate, OnTlsTarget, OnProgress;
  }

  lemma FrameCtx<A(!new)>(allowed: A -> bool, ports: bool, s: Sys<A>, e: Event<A>)
    ensures var t := Next(allowed, ports, s, e);
      && (t.ctx == Live ==> s.ctx == Live)
  {
    hide Idle, AdmitPassive, Scheduled;
  }

  /** A scan that ended is frozen. */
  lemma EndedIsFrozen<A(!new)>(allowed: A -> bool, ports: bool, s: Sys<A>, e: Event<A>)
    requires s.scan.state != Running
    ensures Next(allowed, ports, s, e).scan == s.scan
  {
    hide Idle, Scheduled, OriginOf;
  }

  lemma FrameState<A(!new)>(allowed: A -> bool, ports: bool, s: Sys<A>, e: Event<A>)
    ensures var t := Next(allowed, ports, s, e); !e.End? ==> t.scan.state == s.scan.state && t.scan.partial == s.scan.partial
  {
    hide Idle, Scheduled, OriginOf;
  }

  // ---------------------------------------------------- one event at a time

  lemma CountersFit<A(!new)>(allowed: A -> bool, s: Sys<A>)
    requires Budget(allowed, s.scan) && Hosts(s) && Counters(s)
    ensures s.scan.done <= s.scan.total && s.scan.answered <= s.scan.total
    ensures forall p <- s.runner.reports :: p.total <= s.scan.total
  {
    hide From;
    CardLe(s.runner.seen, s.scan.targets.Keys);
    CardLe(s.runner.finished, s.runner.seen);
    CardLe(s.runner.replied, s.runner.seen);
  }

  lemma AnswerKeepsBudget<A(!new)>(allowed: A -> bool, s: Scan<A>, ctx: Ctx, a: A)
    requires Budget(allowed, s)
    ensures Budget(allowed, AdmitPassive(allowed, s, ctx, a).0)
  {
    hide From;
    if a !in s.targets {
      FromAdd(s.targets, a, FromPassive);
    }
  }

  lemma KeepsBudget<A(!new)>(allowed: A -> bool, ports: bool, s: Sys<A>, e: Event<A>)
    requires Budget(allowed, s.scan) && Hosts(s) && Counters(s)
    ensures Budget(allowed, Next(allowed, ports, s, e).scan)
  {
    CountersFit(allowed, s);
    FrameBudget(allowed, ports, s, e);
    if e.Answer? {
      hide Budget, Hosts, Counters, AdmitPassive;
      AnswerKeepsBudget(allowed, s.scan, s.ctx, e.a);
    } else if e.Deliver? {
      hide From, Hosts, Counters;
    } else {
      hide Next, Hosts, Counters, From;
    }
  }

  lemma LeftAfterKnown<A(!new)>(seen: set<A>, keys: set<A>, a: A)
    requires a in keys
    ensures seen + {a} - keys == seen - keys
  {
  }

  lemma LeftAfterSkip<A(!new)>(seen: set<A>, keys: set<A>, a: A)
    requires a !in keys && a !in seen
    ensures |seen + {a} - keys| == |seen - keys| + 1
  {
    var left := seen - keys;
    assert seen + {a} - keys == left + {a};
  }

  lemma LeftAfterAdmit<A(!new)>(seen: set<A>, keys: set<A>, a: A)
    requires a !in keys && a !in seen
    ensures seen + {a} - (keys + {a}) == seen - keys
  {
  }

  lemma NoteAnswer<A(!new)>(seen: set<A>, keys: set<A>, answered: nat, skipped: nat, skippedInventory: nat, a: A)
    requires Noted(seen, keys, answered, skipped, skippedInventory) && a !in seen && |keys| <= MAX_ADDRESSES
    ensures a in keys ==> Noted(seen + {a}, keys, answered + 1, skipped, skippedInventory)
    ensures a !in keys && |keys| == MAX_ADDRESSES ==> Noted(seen + {a}, keys, answered + 1, skipped + 1, skippedInventory)
    ensures a !in keys && |keys| < MAX_ADDRESSES ==> Noted(seen + {a}, keys + {a}, answered + 1, skipped, skippedInventory)
  {
    if a in keys {
      LeftAfterKnown(seen, keys, a);
    } else if |keys| == MAX_ADDRESSES {
      LeftAfterSkip(seen, keys, a);
    } else {
      LeftAfterAdmit(seen, keys, a);
    }
  }

  lemma AnswerKeepsAnswers<A(!new)>(allowed: A -> bool, s: Scan<A>, ctx: Ctx, a: A)
    requires Answers(s) && |s.targets| <= MAX_ADDRESSES
    ensures Answers(AdmitPassive(allowed, s, ctx, a).0)
  {
    hide Noted;
    if ctx == Live && !s.cancelled && s.state == Running && allowed(a) && a !in s.passiveSeen {
      NoteAnswer(s.passiveSeen, s.targets.Keys, s.passiveAnswered, s.skippedPassive, s.skippedInventory, a);
      AddedKeys(s.targets, a);
    }
  }

  lemma AddedKeys<A>(targets: map<A, Source>, a: A)
    ensures targets[a := FromPassive].Keys == targets.Keys + {a}
    ensures |targets.Keys| == |targets|
  {
  }

  lemma KeepsAnswers<A(!new)>(allowed: A -> bool, ports: bool, s: Sys<A>, e: Event<A>)
    requires Answers(s.scan) && |s.scan.targets| <= MAX_ADDRESSES
    ensures Answers(Next(allowed, ports, s, e).scan)
  {
    FrameBudget(allowed, ports, s, e);
    if e.Answer? {
      hide Answers, AdmitPassive;
      AnswerKeepsAnswers(allowed, s.scan, s.ctx, e.a);
    } else {
      hide Next;
    }
  }

  lemma ScheduledHosts<A(!new)>(r: Runner<A>, targets: map<A, Source>, ports: bool, h: A)
    requires r.seen <= targets.Keys && r.active <= r.seen && r.replied <= r.seen && r.finished <= r.seen && r.active !! r.finished
    ensures var q := Scheduled(r, targets, ports, h);
      q.seen <= targets.Keys && q.active <= q.seen && q.replied <= q.seen && q.finished <= q.seen && q.active !! q.finished
  {
  }

  lemma KeepsHosts<A(!new)>(allowed: A -> bool, ports: bool, s: Sys<A>, e: Event<A>)
    requires Hosts(s)
    ensures Hosts(Next(allowed, ports, s, e))
  {
    FrameBudget(allowed, ports, s, e);
    FrameHosts(allowed, ports, s, e);
    if e.Schedule? || e.TakeLate? {
      hide Scheduled, Idle;
      if Enabled(s, e) {
        ScheduledHosts(s.runner, s.scan.targets, ports, if e.Schedule? then s.runner.todo[0] else s.late[0]);
      }
    } else if e.Answer? {
      hide Scheduled, Idle;
    } else if e.Reply? || e.FinishHost? || e.Abandon? {
      hide AdmitPassive;
    } else {
      hide Next;
    }
  }

  /** The scanner's sets grow, except for the goroutines at work. */
  lemma HostsGrow<A(!new)>(allowed: A -> bool, ports: bool, s: Sys<A>, e: Event<A>)
    ensures var q := Next(allowed, ports, s, e).runner;
      && s.runner.seen <= q.seen && s.runner.replied <= q.replied && s.runner.finished <= q.finished
      && |s.runner.seen| <= |q.seen| && |s.runner.replied| <= |q.replied| && |s.runner.finished| <= |q.finished|
  {
    var q := Next(allowed, ports, s, e).runner;
    FrameHosts(allowed, ports, s, e);
    assert s.runner.seen <= q.seen && s.runner.replied <= q.replied && s.runner.finished <= q.finished;
    hide Next;
    CardLe(s.runner.seen, q.seen);
    CardLe(s.runner.replied, q.replied);
    CardLe(s.runner.finished, q.finished);
  }

  lemma KeepsCounters<A(!new)>(allowed: A -> bool, ports: bool, s: Sys<A>, e: Event<A>)
    requires Counters(s)
    ensures Counters(Next(allowed, ports, s, e))
  {
    HostsGrow(allowed, ports, s, e);
    FrameCounts(allowed, ports, s, e);
    if e.FinishHost? || e.ReadCounters? || e.Deliver? {
      if Enabled(s, e) {
        MessagesKeepCounters(allowed, ports, s, e);
      }
    } else {
      FrameMessages(allowed, ports, s, e);
      hide Next;
    }
  }

  lemma MessagesKeepCounters<A(!new)>(allowed: A -> bool, ports: bool, s: Sys<A>, e: Event<A>)
    requires Counters(s) && Enabled(s, e) && (e.FinishHost? || e.ReadCounters? || e.Deliver?)
    ensures Counters(Next(allowed, ports, s, e))
  {
    HostsGrow(allowed, ports, s, e);
    hide Idle, AdmitPassive, Scheduled, OnCandidate, OnTlsTarget;
    match e
    case FinishHost(h) =>
    case ReadCounters(d) =>
    case Deliver(p) => assert BoundedReport(s.runner, p);
  }

  lemma KeepsChannel<A(!new)>(allowed: A -> bool, ports: bool, s: Sys<A>, e: Event<A>)
    requires Channel(s)
    ensures Channel(Next(allowed, ports, s, e))
  {
    FrameBudget(allowed, ports, s, e);
    FrameChannel(allowed, ports, s, e);
    if e.Answer? {
      AnswerKeepsChannel(allowed, s.scan, s.ctx, e.a);
      hide Idle, Scheduled, OnCandidate, OnTlsTarget, SameBudget, AdmitPassive;
      CardAdd(s.admitting, e.a);
    } else if e.Send? || e.Drop? || e.TakeLate? {
      hide Idle, Scheduled, OnCandidate, OnTlsTarget, AdmitPassive, SameBudget;
    } else {
      hide Next;
    }
  }

  lemma AnswerKeepsChannel<A(!new)>(allowed: A -> bool, s: Scan<A>, ctx: Ctx, a: A)
    ensures var (t, ok) := AdmitPassive(allowed, s, ctx, a); t.passive == s.passive + if ok then 1 else 0
  {
  }

  lemma CardAdd<T>(s: set<T>, x: T)
    ensures |s + {x}| <= |s| + 1
  {
  }

  lemma KeepsCandidatesKeyed<A(!new)>(allowed: A -> bool, ports: bool, s: Sys<A>, e: Event<A>)
    requires CandidatesKeyed(s.scan)
    ensures CandidatesKeyed(Next(allowed, ports, s, e).scan)
  {
    FrameFindings(allowed, ports, s, e);
    if e.Commit? || e.FoundTls? {
      hide Idle, Scheduled, AdmitPassive, OriginOf, OnProgress;
    } else {
      hide Next;
    }
  }

  lemma GrowsTargets<A(!new)>(allowed: A -> bool, ports: bool, s: Sys<A>, e: Event<A>, a: A, o: Origin)
    requires Located(s.scan.targets, a, o)
    ensures Located(Next(allowed, ports, s, e).scan.targets, a, o)
  {
    FrameBudget(allowed, ports, s, e);
    if e.Answer? {
      hide Idle, Scheduled;
    } else {
      hide Next;
    }
  }

  lemma FoundOnTarget<A(!new)>(s: Sys<A>, h: A)
    requires Hosts(s) && h in s.runner.active
    ensures Located(s.scan.targets, h, OriginOf(s.scan.targets, h))
  {
    assert h in s.runner.seen;
    assert h in s.scan.targets.Keys;
  }

  lemma KeepsOrigins<A(!new)>(allowed: A -> bool, ports: bool, s: Sys<A>, e: Event<A>)
    requires Origins(s) && Hosts(s)
    ensures Origins(Next(allowed, ports, s, e))
  {
    hide Idle, Scheduled, Located, OriginOf, AdmitPassive;
    var t := Next(allowed, ports, s, e);
    FrameFindings(allowed, ports, s, e);
    FramePrepared(allowed, ports, s, e);
    forall a, o | Located(s.scan.targets, a, o)
      ensures Located(t.scan.targets, a, o)
    {
      GrowsTargets(allowed, ports, s, e, a, o);
    }
    if (e.Prepare? || e.FoundTls?) && Enabled(s, e) {
      FoundOnTarget(s, e.h);
      hide Hosts;
    } else if e.Commit? {
      hide Hosts;
    } else {
      hide Next, Hosts;
    }
  }

  lemma KeepsReasons<A(!new)>(allowed: A -> bool, ports: bool, s: Sys<A>, e: Event<A>)
    requires Reasons(s)
    ensures Reasons(Next(allowed, ports, s, e))
  {
    hide Idle, Scheduled;
  }

  lemma KeepsPlaces<A(!new)>(allowed: A -> bool, s: Sys<A>, e: Event<A>)
    requires Places(s) && Hosts(s)
    ensures Places(Next(allowed, true, s, e))
  {
    var t := Next(allowed, true, s, e);
    FrameCtx(allowed, true, s, e);
    if t.ctx == Live {
    forall a | a in t.scan.targets
        ensures Placed(t, a)
      {
        StaysPlaced(allowed, s, e, a);
      }
      hide Next, Placed;
      KeepsWork(allowed, s, e);
    }
  }

  lemma KeepsWork<A(!new)>(allowed: A -> bool, s: Sys<A>, e: Event<A>)
    requires s.ctx == Live && s.runner.seen == s.runner.active + s.runner.finished && s.runner.finished <= s.runner.seen
    ensures var q := Next(allowed, true, s, e).runner; q.seen == q.active + q.finished
  {
    FrameHosts(allowed, true, s, e);
    if e.Schedule? || e.TakeLate? || e.FinishHost? || e.Reply? || e.Abandon? {
      hide Idle, OnProgress, OnCandidate, OnTlsTarget, AdmitPassive;
    } else {
      hide Next;
    }
  }

  lemma StaysPlaced<A(!new)>(allowed: A -> bool, s: Sys<A>, e: Event<A>, a: A)
    requires s.ctx == Live && (a in s.scan.targets ==> Placed(s, a))
    requires a in Next(allowed, true, s, e).scan.targets
    ensures Placed(Next(allowed, true, s, e), a)
  {
    FrameBudget(allowed, true, s, e);
    FrameQueues(allowed, true, s, e);
    FrameChannel(allowed, true, s, e);
    HostsGrow(allowed, true, s, e);
    if e.Schedule? || e.TakeLate? || e.Send? || e.Answer? {
      hide Idle, OnProgress, OnCandidate, OnTlsTarget;
    } else if e.Drop? {
      hide Idle, OnProgress, OnCandidate, OnTlsTarget, AdmitPassive, Scheduled;
    } else {
      hide Next;
    }
  }

  lemma KeepsStages<A(!new)>(allowed: A -> bool, s: Sys<A>, e: Event<A>)
    requires Stages(s)
    ensures Stages(Next(allowed, true, s, e))
  {
    FrameState(allowed, true, s, e);
    FrameCtx(allowed, true, s, e);
    if e.Answer? {
      hide OnCandidate, OnTlsTarget, OnProgress, Scheduled, Idle;
    } else {
      hide OnCandidate, OnTlsTarget, OnProgress, AdmitPassive, CancelledBy, ShutDown;
    }
  }

  lemma KeepsReported<A(!new)>(allowed: A -> bool, s: Sys<A>, e: Event<A>)
    requires Reported(s)
    ensures Reported(Next(allowed, true, s, e))
  {
    var t := Next(allowed, true, s, e);
    FrameCounts(allowed, true, s, e);
    FrameHosts(allowed, true, s, e);
    FrameState(allowed, true, s, e);
    if s.scan.state != Running {
      EndedIsFrozen(allowed, true, s, e);
      return;
    }
    if e.FinishHost? || e.Deliver? {
      hide Idle, AdmitPassive, Scheduled, OnCandidate, OnTlsTarget;
    } else if e.ReadCounters? {
      hide Idle, AdmitPassive, Scheduled, OnCandidate, OnTlsTarget, OnProgress;
      if Enabled(s, e) {
        assert Progress(e.d, |s.runner.seen|, |s.runner.replied|) in t.runner.reports;
      }
    } else {
      assert t.runner.finished == s.runner.finished;
      FrameMessages(allowed, true, s, e);
      hide Next;
    }
  }

  /** A runner that returned on its own has scanned every address. */
  lemma ReturnedMeansDone<A(!new)>(allowed: A -> bool, s: Sys<A>)
    requires Places(s) && Stages(s) && Reported(s) && Hosts(s) && Counters(s) && Budget(allowed, s.scan)
    requires s.ctx == Live && s.runner.at == Returned
    ensures s.scan.done == s.scan.total
  {
    hide From;
    forall a | a in s.scan.targets.Keys
      ensures a in s.runner.finished
    {
      assert Placed(s, a);
    }
    assert s.scan.targets.Keys == s.runner.finished;
  }

  lemma KeepsHonest<A(!new)>(allowed: A -> bool, s: Sys<A>, e: Event<A>)
    requires Honest(s.scan) && Places(s) && Stages(s) && Reported(s)
    requires Reasons(s) && Hosts(s) && Counters(s) && Budget(allowed, s.scan)
    ensures Honest(Next(allowed, true, s, e).scan)
  {
    hide Scheduled, Idle, Hosts, Counters, Budget, Places, Reported, AdmitPassive;
    FrameState(allowed, true, s, e);
    if s.scan.state != Running {
      EndedIsFrozen(allowed, true, s, e);
    }
    if e.End? && s.ctx == Live && s.runner.at == Returned {
      ReturnedMeansDone(allowed, s);
    }
  }

  // -------------------------------------------------------------- whole runs

  ghost predicate Safe<A(!new)>(allowed: A -> bool, s: Sys<A>) {
    && Budget(allowed, s.scan) && Answers(s.scan) && Hosts(s) && Counters(s) && Channel(s)
    && CandidatesKeyed(s.scan) && Origins(s) && Reasons(s)
  }

  /** What holds besides when there is at least one port to probe. */
  ghost predicate Thorough<A(!new)>(s: Sys<A>) {
    Places(s) && Stages(s) && Reported(s) && Honest(s.scan)
  }

  lemma StepIsSafe<A(!new)>(allowed: A -> bool, ports: bool, s: Sys<A>, e: Event<A>)
    requires Safe(allowed, s)
    ensures Safe(allowed, Next(allowed, ports, s, e))
  {
    hide Next, Answers, Hosts, Counters, Channel, CandidatesKeyed, Origins, Reasons;
    KeepsBudget(allowed, ports, s, e);
    KeepsAnswers(allowed, ports, s, e);
    KeepsHosts(allowed, ports, s, e);
    KeepsCounters(allowed, ports, s, e);
    KeepsChannel(allowed, ports, s, e);
    KeepsCandidatesKeyed(allowed, ports, s, e);
    KeepsOrigins(allowed, ports, s, e);
    KeepsReasons(allowed, ports, s, e);
  }

  lemma StepIsThorough<A(!new)>(allowed: A -> bool, s: Sys<A>, e: Event<A>)
    requires Safe(allowed, s) && Thorough(s)
    ensures Thorough(Next(allowed, true, s, e))
  {
    hide Next, Budget, Answers, Hosts, Counters, Channel, CandidatesKeyed, Origins, Reasons, Places, Stages, Reported, Honest;
    KeepsPlaces(allowed, s, e);
    KeepsStages(allowed, s, e);
    KeepsReported(allowed, s, e);
    KeepsHonest(allowed, s, e);
  }

  lemma {:induction false} RunIsSafe<A(!new)>(allowed: A -> bool, ports: bool, s: Sys<A>, es: seq<Event<A>>)
    requires Safe(allowed, s)
    ensures Safe(allowed, Run(allowed, ports, s, es))
    ensures ports && Thorough(s) ==> Thorough(Run(allowed, ports, s, es))
    decreases |es|
  {
    hide Next, Safe, Thorough;
    if es != [] {
      StepIsSafe(allowed, ports, s, es[0]);
      if ports && Thorough(s) {
        StepIsThorough(allowed, s, es[0]);
      }
      RunIsSafe(allowed, ports, Next(allowed, ports, s, es[0]), es[1..]);
    }
  }

  /** Start hands over a safe system. */
  lemma LaunchedIsSafe<A(!new)>(allowed: A -> bool, hosts: seq<A>, b: Built<A>, wanted: set<A>, askNetwork: bool)
    requires Tally(allowed, hosts, b, wanted) && forall a <- wanted :: a !in hosts
    ensures Safe(allowed, Launched(b, askNetwork)) && Thorough(Launched(b, askNetwork))
  {
    hide Budget, Answers, Places, Tally;
    LaunchedBudget(allowed, hosts, b, wanted, askNetwork);
    LaunchedAnswers(allowed, hosts, b, wanted, askNetwork);
    LaunchedPlaces(allowed, hosts, b, wanted, askNetwork);
  }

  lemma LaunchedAnswers<A(!new)>(allowed: A -> bool, hosts: seq<A>, b: Built<A>, wanted: set<A>, askNetwork: bool)
    requires Tally(allowed, hosts, b, wanted)
    ensures Answers(Launched(b, askNetwork).scan)
  {
    assert {} - b.targets.Keys == {};
  }

  lemma LaunchedPlaces<A(!new)>(allowed: A -> bool, hosts: seq<A>, b: Built<A>, wanted: set<A>, askNetwork: bool)
    requires Tally(allowed, hosts, b, wanted)
    ensures Places(Launched(b, askNetwork))
  {
    hide Accounted;
  }

  lemma LaunchedBudget<A(!new)>(allowed: A -> bool, hosts: seq<A>, b: Built<A>, wanted: set<A>, askNetwork: bool)
    requires Tally(allowed, hosts, b, wanted) && forall a <- wanted :: a !in hosts
    ensures Budget(allowed, Launched(b, askNetwork).scan)
  {
    var m := b.targets;
    FromSum(m);
    assert From(m, FromPassive) == {};
    assert From(m, FromInventory) == wanted * m.Keys;
  }

  /** The address budget, in every state a started scan can reach. */
  lemma BudgetIsConserved<A(!new)>(allowed: A -> bool, ports: bool, hosts: seq<A>, b: Built<A>, wanted: set<A>, askNetwork: bool, es: seq<Event<A>>)
    requires Tally(allowed, hosts, b, wanted) && forall a <- wanted :: a !in hosts
    ensures var s := Run(allowed, ports, Launched(b, askNetwork), es).scan;
      && s.range + s.inventory + s.passive == |s.targets| == s.total <= MAX_ADDRESSES
      && s.done <= s.total && s.answered <= s.total
      && (forall a :: a in s.targets ==> allowed(a))
      && s.skippedPassive == |s.passiveSeen - s.targets.Keys|
      && (s.skippedPassive > 0 || s.skippedInventory > 0 ==> s.total == MAX_ADDRESSES)
  {
    hide Run, Launched, Hosts, Counters, Channel, CandidatesKeyed, Origins, Reasons, Thorough, From, Tally;
    LaunchedIsSafe(allowed, hosts, b, wanted, askNetwork);
    var t := Run(allowed, ports, Launched(b, askNetwork), es);
    RunIsSafe(allowed, ports, Launched(b, askNetwork), es);
    CountersFit(allowed, t);
    FromSum(t.scan.targets);
  }

  /** An admitted address can always be sent to the scanner at once. */
  lemma SendNeverBlocks<A(!new)>(allowed: A -> bool, s: Sys<A>, a: A)
    requires Safe(allowed, s) && a in s.admitting
    ensures Enabled(s, Send(a))
  {
    hide From, Answers, Hosts, Counters, CandidatesKeyed, Origins, Reasons;
    FromSum(s.scan.targets);
    assert |s.admitting| > 0;
  }

  /** A completed scan says it is partial exactly when it left an address out. */
  lemma PartialIsExact<A(!new)>(allowed: A -> bool, hosts: seq<A>, b: Built<A>, wanted: set<A>, askNetwork: bool, es: seq<Event<A>>)
    requires Tally(allowed, hosts, b, wanted) && forall a <- wanted :: a !in hosts
    ensures var s := Run(allowed, true, Launched(b, askNetwork), es).scan;
      s.state == Completed ==> (s.partial <==> s.done < s.total)
  {
    hide Run, Launched, Safe, Places, Stages, Reported, Tally;
    LaunchedIsSafe(allowed, hosts, b, wanted, askNetwork);
    RunIsSafe(allowed, true, Launched(b, askNetwork), es);
  }

  // ------------------------------------------------- what a run never undoes

  /** Counters and findings only grow, the first source of an address stays, an
      ended scan is frozen and a cancelled one finds nothing more. */
  ghost predicate Extends<A(!new)>(s: Scan<A>, t: Scan<A>) {
    && s.done <= t.done && s.answered <= t.answered && s.total <= t.total
    && s.candidates <= t.candidates && s.tls <= t.tls
    && (forall a :: a in s.targets ==> a in t.targets && t.targets[a] == s.targets[a])
    && (s.state != Running ==> t == s)
    && (s.cancelled ==> t.cancelled && t.candidates == s.candidates && t.tls == s.tls && t.targets == s.targets)
    && (s.cancelled ==> t.cancelledBy == s.cancelledBy && t.cancelReason == s.cancelReason)
  }

  lemma AnswerExtends<A(!new)>(allowed: A -> bool, s: Scan<A>, ctx: Ctx, a: A)
    requires s.total == |s.targets|
    ensures Extends(s, AdmitPassive(allowed, s, ctx, a).0)
  {
  }

  lemma FindingExtends<A(!new)>(s: Scan<A>, ctx: Ctx, c: Candidate<A>, t: TlsTarget<A>)
    ensures Extends(s, OnCandidate(s, c)) && Extends(s, OnTlsTarget(s, ctx, t))
  {
  }

  lemma CountersExtend<A(!new)>(s: Scan<A>, p: Progress)
    ensures Extends(s, OnProgress(s, p))
  {
  }

  lemma StopExtends<A(!new)>(s: Scan<A>, user: string, failed: bool, ctx: Ctx)
    ensures Extends(s, s) && Extends(s, CancelledBy(s, user)) && Extends(s, ShutDown(s))
    ensures s.state == Running ==> Extends(s, Ended(s, failed, ctx))
  {
  }

  lemma StepExtends<A(!new)>(allowed: A -> bool, ports: bool, s: Sys<A>, e: Event<A>)
    requires Safe(allowed, s)
    ensures Extends(s.scan, Next(allowed, ports, s, e).scan)
  {
    hide Idle, Scheduled, From, Answers, Hosts, Counters, Channel, CandidatesKeyed, Origins, Reasons;
    hide AdmitPassive, OnCandidate, OnTlsTarget, OnProgress, CancelledBy, ShutDown, Ended, Extends;
    StopExtends(s.scan, if e.CancelBy? then e.user else "", s.runner.at == Panicked, s.ctx);
    if e.Answer? {
      AnswerExtends(allowed, s.scan, s.ctx, e.a);
    } else if e.Commit? {
      FindingExtends(s.scan, s.ctx, e.c, TlsTarget(e.c.address, 0, NoOrigin));
    } else if e.FoundTls? {
      FindingExtends(s.scan, s.ctx, Candidate("", e.h, 0, NoOrigin), TlsTarget(e.h, e.port, NoOrigin));
    } else if e.Deliver? {
      CountersExtend(s.scan, e.p);
    }
  }

  lemma {:induction false} RunExtends<A(!new)>(allowed: A -> bool, ports: bool, s: Sys<A>, es: seq<Event<A>>)
    requires Safe(allowed, s)
    ensures Extends(s.scan, Run(allowed, ports, s, es).scan)
    decreases |es|
  {
    hide Next, Safe;
    if es != [] {
      var t := Next(allowed, ports, s, es[0]);
      StepIsSafe(allowed, ports, s, es[0]);
      StepExtends(allowed, ports, s, es[0]);
      RunExtends(allowed, ports, t, es[1..]);
    }
  }
}
