/** What a running scan records, and how it ends: the counterpart of ScanSafety, which
    says what it never records. */
module ScanRecords {
  import opened ScanTargets
  import opened ScanLifecycle
  import opened ScanSafety

  // ------------------------------------------------------------ what is recorded

  /** A scan that still takes findings. */
  ghost predicate Taking<A>(s: Scan<A>) { s.state == Running && !s.cancelled }

  ghost predicate HasCandidate<A>(s: Scan<A>, key: (string, A, int)) {
    exists i :: 0 <= i < |s.candidates| && CandidateKey(s.candidates[i]) == key
  }

  ghost predicate HasTls<A>(s: Scan<A>, key: (A, int)) {
    exists i :: 0 <= i < |s.tls| && TlsKey(s.tls[i]) == key
  }

  /** The key sets hold exactly the keys of what is listed. */
  ghost predicate KeysListed<A(!new)>(s: Scan<A>) {
    && (forall k :: k in s.candidateKeys <==> HasCandidate(s, k))
    && (forall k :: k in s.tlsKeys <==> HasTls(s, k))
  }

  /** A candidate found while the scan takes findings is listed, as it was found if
      its key is new; nothing else is added. */
  lemma CandidateIsListed<A(!new)>(s: Scan<A>, c: Candidate<A>)
    requires KeysListed(s) && Taking(s)
    ensures var t := OnCandidate(s, c);
      && HasCandidate(t, CandidateKey(c)) && KeysListed(t) && t.tls == s.tls
      && t.candidates == if HasCandidate(s, CandidateKey(c)) then s.candidates else s.candidates + [c]
  {
    hide CandidateKey;
    var t := OnCandidate(s, c);
    if !HasCandidate(s, CandidateKey(c)) {
      CandidateAdded(s, t, c);
    }
    assert t.tls == s.tls && t.tlsKeys == s.tlsKeys;
    forall k ensures HasTls(t, k) <==> HasTls(s, k) {
    }
  }

  lemma CandidateAdded<A(!new)>(s: Scan<A>, t: Scan<A>, c: Candidate<A>)
    requires t.candidates == s.candidates + [c]
    ensures forall k :: HasCandidate(t, k) <==> HasCandidate(s, k) || k == CandidateKey(c)
  {
    hide CandidateKey;
    assert t.candidates[|s.candidates|] == c;
    forall k | HasCandidate(s, k) ensures HasCandidate(t, k) {
      var i :| 0 <= i < |s.candidates| && CandidateKey(s.candidates[i]) == k;
      assert CandidateKey(t.candidates[i]) == k;
    }
  }

  /** The same for a TLS target, with the source its address came from. */
  lemma TlsTargetIsListed<A(!new)>(s: Scan<A>, x: TlsTarget<A>)
    requires KeysListed(s) && Taking(s)
    ensures var t := OnTlsTarget(s, Live, x);
      && HasTls(t, TlsKey(x)) && t.candidates == s.candidates
      && t.tls == (if HasTls(s, TlsKey(x)) then s.tls
                   else s.tls + [TlsTarget(x.address, x.port, if x.address in s.targets then Origin(s.targets[x.address]) else NoOrigin)])
  {
    var t := OnTlsTarget(s, Live, x);
    if !HasTls(s, TlsKey(x)) {
      assert TlsKey(t.tls[|s.tls|]) == TlsKey(x);
    }
  }

  /** A first answer of an allowed address is counted; the address is a target from
      then on, unless the budget was full, and then it is counted as skipped. */
  lemma AnswerIsCounted<A(!new)>(allowed: A -> bool, s: Scan<A>, a: A)
    requires Taking(s) && allowed(a) && a !in s.passiveSeen
    ensures var (t, ok) := AdmitPassive(allowed, s, Live, a);
      && a in t.passiveSeen && t.passiveAnswered == s.passiveAnswered + 1
      && (a in s.targets ==> !ok && t.targets == s.targets && t.skippedPassive == s.skippedPassive)
      && (a !in s.targets && |s.targets| < MAX_ADDRESSES ==>
            && ok && a in t.targets && t.targets[a] == FromPassive && t.passive == s.passive + 1
            && t.total == |t.targets| && t.skippedPassive == s.skippedPassive)
      && (a !in s.targets && |s.targets| >= MAX_ADDRESSES ==>
            && !ok && t.targets == s.targets && t.skippedPassive == s.skippedPassive + 1)
  {
  }

  lemma KeepsKeysListed<A(!new)>(allowed: A -> bool, ports: bool, s: Sys<A>, e: Event<A>)
    requires KeysListed(s.scan)
    ensures KeysListed(Next(allowed, ports, s, e).scan)
  {
    FrameFindings(allowed, ports, s, e);
    FrameScan(allowed, ports, s, e);
    if e.Commit? && Enabled(s, e) {
      if Taking(s.scan) {
        CandidateIsListed(s.scan, e.c);
      }
      hide Next, KeysListed;
    } else if e.FoundTls? && Enabled(s, e) {
      TlsKeepsListed(s.scan, s.ctx, TlsTarget(e.h, e.port, NoOrigin));
      hide Next, KeysListed;
    } else {
      hide Next, OnCandidate, OnTlsTarget, AdmitPassive, OnProgress;
      SameListed(s.scan, Next(allowed, ports, s, e).scan);
    }
  }

  lemma SameListed<A(!new)>(s: Scan<A>, t: Scan<A>)
    requires KeysListed(s) && SameFindings(s, t)
    ensures KeysListed(t)
  {
    forall k ensures HasCandidate(t, k) <==> HasCandidate(s, k) {
    }
    forall k ensures HasTls(t, k) <==> HasTls(s, k) {
    }
  }

  lemma TlsKeepsListed<A(!new)>(s: Scan<A>, ctx: Ctx, x: TlsTarget<A>)
    requires KeysListed(s)
    ensures KeysListed(OnTlsTarget(s, ctx, x))
  {
    var t := OnTlsTarget(s, ctx, x);
    forall k ensures HasCandidate(t, k) <==> HasCandidate(s, k) {
    }
    if t != s {
      var n := |s.tls|;
      assert TlsKey(t.tls[n]) == TlsKey(x);
      forall k | HasTls(s, k) ensures HasTls(t, k) {
        var i :| 0 <= i < n && TlsKey(s.tls[i]) == k;
        assert TlsKey(t.tls[i]) == k;
      }
    }
  }

  lemma {:induction false} RunKeepsListed<A(!new)>(allowed: A -> bool, ports: bool, s: Sys<A>, es: seq<Event<A>>)
    requires KeysListed(s.scan)
    ensures KeysListed(Run(allowed, ports, s, es).scan)
    decreases |es|
  {
    hide Next, KeysListed;
    if es != [] {
      KeepsKeysListed(allowed, ports, s, es[0]);
      RunKeepsListed(allowed, ports, Next(allowed, ports, s, es[0]), es[1..]);
    }
  }

  /** A candidate that is committed while the scan takes findings is listed in every
      state from then on. */
  lemma FoundStaysListed<A(!new)>(allowed: A -> bool, ports: bool, s: Sys<A>, c: Candidate<A>, es: seq<Event<A>>)
    requires Safe(allowed, s) && KeysListed(s.scan) && Taking(s.scan) && c in s.runner.prepared
    ensures HasCandidate(Run(allowed, ports, Next(allowed, ports, s, Commit(c)), es).scan, CandidateKey(c))
  {
    hide Run, Safe, KeysListed, CandidateKey;
    var t := Next(allowed, ports, s, Commit(c));
    CommitLists(allowed, ports, s, c);
    StepIsSafe(allowed, ports, s, Commit(c));
    RunExtends(allowed, ports, t, es);
    var u := Run(allowed, ports, t, es);
    var i :| 0 <= i < |t.scan.candidates| && CandidateKey(t.scan.candidates[i]) == CandidateKey(c);
    assert u.scan.candidates[i] == t.scan.candidates[i];
  }

  lemma CommitLists<A(!new)>(allowed: A -> bool, ports: bool, s: Sys<A>, c: Candidate<A>)
    requires KeysListed(s.scan) && Taking(s.scan) && c in s.runner.prepared
    ensures HasCandidate(Next(allowed, ports, s, Commit(c)).scan, CandidateKey(c))
  {
    FrameScan(allowed, ports, s, Commit(c));
    CandidateIsListed(s.scan, c);
  }

  /** The first canceller of a running scan is on record, and the scan is stopped. */
  lemma CancelIsRecorded<A(!new)>(allowed: A -> bool, ports: bool, s: Sys<A>, user: string)
    requires Taking(s.scan)
    ensures var t := Next(allowed, ports, s, CancelBy(user));
      t.scan.cancelled && t.scan.cancelledBy == user && t.scan.cancelReason == s.scan.cancelReason && t.ctx != Live
    ensures var t := Next(allowed, ports, s, Shutdown);
      t.scan.cancelled && t.scan.cancelReason == "shutdown" && t.scan.cancelledBy == s.scan.cancelledBy && t.ctx != Live
  {
  }

  // ---------------------------------------------------------------- how it ends

  /** An ended scan failed exactly when its runner panicked, and was cancelled exactly
      when someone did so and it did not fail. */
  ghost predicate Outcome<A>(s: Sys<A>) {
    s.scan.state != Running ==>
      && (s.runner.at == Panicked || s.runner.at == Returned)
      && (s.scan.state == Failed <==> s.runner.at == Panicked)
      && (s.scan.state == Cancelled <==> s.runner.at == Returned && s.scan.cancelled)
  }

  lemma KeepsOutcome<A(!new)>(allowed: A -> bool, ports: bool, s: Sys<A>, e: Event<A>)
    requires Outcome(s)
    ensures Outcome(Next(allowed, ports, s, e))
  {
    FrameState(allowed, ports, s, e);
    if s.scan.state != Running {
      EndedIsFrozen(allowed, ports, s, e);
      RunnerIsOver(allowed, ports, s, e);
      hide Next;
    } else if e.End? {
      hide Idle, Scheduled, AdmitPassive, OnCandidate, OnTlsTarget, OnProgress;
    } else {
      hide Next;
    }
  }

  lemma RunnerIsOver<A(!new)>(allowed: A -> bool, ports: bool, s: Sys<A>, e: Event<A>)
    requires s.runner.at == Panicked || s.runner.at == Returned
    ensures Next(allowed, ports, s, e).runner.at == s.runner.at
  {
    hide Idle, AdmitPassive, OnCandidate, OnTlsTarget, OnProgress, CancelledBy, ShutDown, Ended;
  }

  /** Over every run, the final state is what happened. */
  lemma {:induction false} OutcomeIsExact<A(!new)>(allowed: A -> bool, ports: bool, s: Sys<A>, es: seq<Event<A>>)
    requires Outcome(s)
    ensures Outcome(Run(allowed, ports, s, es))
    decreases |es|
  {
    hide Next, Outcome;
    if es != [] {
      KeepsOutcome(allowed, ports, s, es[0]);
      OutcomeIsExact(allowed, ports, Next(allowed, ports, s, es[0]), es[1..]);
    }
  }

  /** A new scan meets both invariants; without passive source its channel is closed. */
  lemma LaunchedRecords<A(!new)>(b: Built<A>, askNetwork: bool)
    ensures KeysListed(Launched(b, askNetwork).scan) && Outcome(Launched(b, askNetwork))
    ensures Taking(Launched(b, askNetwork).scan) && Launched(b, askNetwork).passiveOver == !askNetwork
  {
  }

  // ------------------------------------------------------- hosts that answered

  /** While nothing has stopped the scan, every host that answered is in the count the
      manager has, or the count is on its way, or its goroutine is still at work. */
  ghost predicate AnswersOnTheWay<A(!new)>(s: Sys<A>) {
    var r := s.runner;
    s.ctx == Live ==>
      || |r.replied| <= s.scan.answered
      || (exists h :: h in r.replied && h in r.active)
      || r.counted != {}
      || (exists p :: p in r.reports && p.answered == |r.replied|)
  }

  lemma KeepsAnswersOnTheWay<A(!new)>(allowed: A -> bool, s: Sys<A>, e: Event<A>)
    requires AnswersOnTheWay(s) && Stages(s) && Hosts(s)
    ensures AnswersOnTheWay(Next(allowed, true, s, e))
  {
    FrameCtx(allowed, true, s, e);
    FrameCounts(allowed, true, s, e);
    FrameHosts(allowed, true, s, e);
    var t := Next(allowed, true, s, e);
    if t.ctx == Live && Enabled(s, e) {
      match e
      case Reply(h) => assert h in t.runner.replied && h in t.runner.active;
      case FinishHost(h) => assert |t.runner.finished| in t.runner.counted;
      case ReadCounters(d) => assert Progress(d, |s.runner.seen|, |s.runner.replied|) in t.runner.reports;
      case Deliver(p) => AnswersDelivered(allowed, s, p);
      case Schedule => AnswersScheduled(allowed, s, e);
      case TakeLate => AnswersScheduled(allowed, s, e);
      case _ => hide Next;
        FrameMessages(allowed, true, s, e);
    }
  }

  lemma AnswersDelivered<A(!new)>(allowed: A -> bool, s: Sys<A>, p: Progress)
    requires AnswersOnTheWay(s) && s.ctx == Live && s.scan.state == Running && Enabled(s, Deliver(p))
    ensures AnswersOnTheWay(Next(allowed, true, s, Deliver(p)))
  {
    hide Idle, Scheduled, AdmitPassive, OnCandidate, OnTlsTarget;
  }

  lemma AnswersScheduled<A(!new)>(allowed: A -> bool, s: Sys<A>, e: Event<A>)
    requires AnswersOnTheWay(s) && s.ctx == Live && (e.Schedule? || e.TakeLate?)
    ensures AnswersOnTheWay(Next(allowed, true, s, e))
  {
    hide Idle, AdmitPassive, OnCandidate, OnTlsTarget, OnProgress;
  }

  /** A runner that returned on its own has reported every host that answered. */
  lemma ReturnedMeansAnswered<A(!new)>(s: Sys<A>)
    requires AnswersOnTheWay(s) && Stages(s) && Counters(s) && s.ctx == Live && s.runner.at == Returned
    ensures s.scan.answered == |s.runner.replied|
  {
  }

  lemma {:induction false} RunReportsAnswers<A(!new)>(allowed: A -> bool, s: Sys<A>, es: seq<Event<A>>)
    requires Safe(allowed, s) && Thorough(s) && AnswersOnTheWay(s)
    ensures AnswersOnTheWay(Run(allowed, true, s, es))
    decreases |es|
  {
    hide Next, AnswersOnTheWay, Budget, Answers, Hosts, Counters, Channel, CandidatesKeyed, Origins, Reasons, Places, Stages, Reported, Honest;
    if es != [] {
      StepIsSafe(allowed, true, s, es[0]);
      StepIsThorough(allowed, s, es[0]);
      KeepsAnswersOnTheWay(allowed, s, es[0]);
      RunReportsAnswers(allowed, Next(allowed, true, s, es[0]), es[1..]);
    }
  }
}
