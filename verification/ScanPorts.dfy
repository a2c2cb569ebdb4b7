/** What "partial" means for a scanner with no port to probe, and that having one is
    exactly what makes it mean "some address was not scanned". */
module ScanPorts {
  import opened ScanTargets
  import opened ScanLifecycle
  import opened ScanSafety

  /** Without ports no host is ever at work, so none is counted as done. */
  ghost predicate NothingAtWork<A>(s: Sys<A>) {
    && s.runner.active == {} && s.runner.counted == {} && s.runner.reports == {}
    && s.scan.done == 0
  }

  /** A completed scan is partial exactly when the deadline had fired first. */
  ghost predicate DeadlineOnly<A>(s: Sys<A>) {
    s.scan.state == Completed ==> s.ctx != Live && (s.scan.partial <==> s.ctx == Expired && s.scan.total > 0)
  }

  lemma KeepsNothingAtWork<A(!new)>(allowed: A -> bool, s: Sys<A>, e: Event<A>)
    requires NothingAtWork(s)
    ensures NothingAtWork(Next(allowed, false, s, e))
  {
    FrameCounts(allowed, false, s, e);
    FrameHosts(allowed, false, s, e);
    if e.FinishHost? || e.ReadCounters? || e.Deliver? || e.Schedule? || e.TakeLate? || e.Reply? || e.Abandon? {
      hide AdmitPassive, OnCandidate, OnTlsTarget, Idle;
    } else {
      FrameMessages(allowed, false, s, e);
      hide Next;
    }
  }

  lemma KeepsDeadlineOnly<A(!new)>(allowed: A -> bool, s: Sys<A>, e: Event<A>)
    requires NothingAtWork(s) && DeadlineOnly(s) && Reasons(s)
    ensures DeadlineOnly(Next(allowed, false, s, e))
  {
    FrameState(allowed, false, s, e);
    FrameCtx(allowed, false, s, e);
    if s.scan.state != Running {
      EndedIsFrozen(allowed, false, s, e);
      if s.scan.state == Completed {
        CtxStays(allowed, s, e);
      }
      hide Next, Reasons;
    } else if e.End? {
      hide Idle, Scheduled, AdmitPassive, OnCandidate, OnTlsTarget, OnProgress;
    } else {
      hide Next, Reasons;
    }
  }

  lemma CtxStays<A(!new)>(allowed: A -> bool, s: Sys<A>, e: Event<A>)
    requires s.ctx != Live
    ensures Next(allowed, false, s, e).ctx == s.ctx
  {
    hide Idle, Scheduled, AdmitPassive, OnCandidate, OnTlsTarget, OnProgress;
  }

  lemma {:induction false} RunWithoutPorts<A(!new)>(allowed: A -> bool, s: Sys<A>, es: seq<Event<A>>)
    requires NothingAtWork(s) && DeadlineOnly(s) && Safe(allowed, s)
    ensures var t := Run(allowed, false, s, es); NothingAtWork(t) && DeadlineOnly(t)
    decreases |es|
  {
    hide Next, NothingAtWork, DeadlineOnly, Budget, Answers, Hosts, Counters, Channel, CandidatesKeyed, Origins, Reasons;
    if es != [] {
      KeepsNothingAtWork(allowed, s, es[0]);
      KeepsDeadlineOnly(allowed, s, es[0]);
      StepIsSafe(allowed, false, s, es[0]);
      RunWithoutPorts(allowed, Next(allowed, false, s, es[0]), es[1..]);
    }
  }

  /** Without ports: nothing is done in any reachable state, and a completed scan of
      at least one address is marked partial exactly when its deadline had fired. */
  lemma WithoutPorts<A(!new)>(allowed: A -> bool, hosts: seq<A>, b: Built<A>, wanted: set<A>, askNetwork: bool, es: seq<Event<A>>)
    requires Tally(allowed, hosts, b, wanted) && forall a <- wanted :: a !in hosts
    ensures var t := Run(allowed, false, Launched(b, askNetwork), es);
      && t.scan.done == 0
      && (t.scan.state == Completed && b.hosts != [] ==> (t.scan.partial <==> t.ctx == Expired))
  {
    hide Run, Safe, Thorough, Tally;
    var s := Launched(b, askNetwork);
    LaunchedIsSafe(allowed, hosts, b, wanted, askNetwork);
    RunWithoutPorts(allowed, s, es);
    RunExtends(allowed, false, s, es);
  }

  // -------------------------------------------------- a run that ends unmarked

  /** Nothing has happened yet but the scheduling of hosts. */
  ghost predicate Starting<A>(s: Sys<A>) {
    && s.scan.state == Running && !s.scan.cancelled && s.ctx == Live
    && s.runner.at == AtHosts && Idle(s.runner) && s.admitting == {} && s.late == []
    && s.scan.done < s.scan.total
  }

  lemma RunStep<A(!new)>(allowed: A -> bool, ports: bool, s: Sys<A>, e: Event<A>, es: seq<Event<A>>)
    ensures Run(allowed, ports, s, [e] + es) == Run(allowed, ports, Next(allowed, ports, s, e), es)
  {
    assert ([e] + es)[1..] == es;
  }

  lemma ScheduleStarts<A(!new)>(allowed: A -> bool, s: Sys<A>)
    requires Starting(s) && s.runner.todo != []
    ensures var t := Next(allowed, false, s, Schedule); Starting(t) && |t.runner.todo| == |s.runner.todo| - 1
  {
  }

  /** The steps that are left once every host is scheduled. */
  lemma Ending<A(!new)>(allowed: A -> bool, s: Sys<A>) returns (es: seq<Event<A>>)
    requires Starting(s) && s.runner.todo == []
    ensures var t := Run(allowed, false, s, es).scan; t.state == Completed && !t.partial && t.done < t.total
  {
    var s1 := s.(runner := s.runner.(at := AtLate));
    var s2 := s1.(passiveOver := true);
    var s3 := s2.(runner := s2.runner.(at := Returned));
    var s4 := s3.(scan := Ended(s3.scan, false, Live), ctx := Stopped);
    EndingSteps(allowed, s, s1, s2, s3, s4);
    hide Next;
    var e4: seq<Event<A>> := [];
    var e3 := [End] + e4;
    var e2 := [Return] + e3;
    var e1 := [PassiveEnds] + e2;
    es := [HostsDone] + e1;
    RunStep(allowed, false, s3, End, e4);
    RunStep(allowed, false, s2, Return, e3);
    RunStep(allowed, false, s1, PassiveEnds, e2);
    RunStep(allowed, false, s, HostsDone, e1);
    assert Run(allowed, false, s, es) == s4;
  }

  lemma EndingSteps<A(!new)>(allowed: A -> bool, s: Sys<A>, s1: Sys<A>, s2: Sys<A>, s3: Sys<A>, s4: Sys<A>)
    requires Starting(s) && s.runner.todo == []
    requires s1 == s.(runner := s.runner.(at := AtLate)) && s2 == s1.(passiveOver := true)
    requires s3 == s2.(runner := s2.runner.(at := Returned)) && s4 == s3.(scan := Ended(s3.scan, false, Live), ctx := Stopped)
    ensures Next(allowed, false, s, HostsDone) == s1 && Next(allowed, false, s1, PassiveEnds) == s2
    ensures Next(allowed, false, s2, Return) == s3 && Next(allowed, false, s3, End) == s4
  {
    hide Scheduled, AdmitPassive, OnCandidate, OnTlsTarget, OnProgress;
  }

  lemma {:induction false} CompletesUnmarked<A(!new)>(allowed: A -> bool, s: Sys<A>) returns (es: seq<Event<A>>)
    requires Starting(s)
    ensures var t := Run(allowed, false, s, es).scan; t.state == Completed && !t.partial && t.done < t.total
    decreases |s.runner.todo|
  {
    hide Next, Starting;
    if s.runner.todo == [] {
      es := Ending(allowed, s);
    } else {
      ScheduleStarts(allowed, s);
      var rest := CompletesUnmarked(allowed, Next(allowed, false, s, Schedule));
      es := [Schedule] + rest;
      RunStep(allowed, false, s, Schedule, rest);
    }
  }

  /** In every run of a scan with addresses, "partial" means that some address was
      not scanned, if and only if there is a port to probe. */
  lemma PartialIsExactIffPorts<A(!new)>(allowed: A -> bool, ports: bool, hosts: seq<A>, b: Built<A>, wanted: set<A>, askNetwork: bool)
    requires Tally(allowed, hosts, b, wanted) && forall a <- wanted :: a !in hosts
    requires b.hosts != []
    ensures (forall es :: Honest(Run(allowed, ports, Launched(b, askNetwork), es).scan)) <==> ports
  {
    hide Run, Tally;
    if ports {
      forall es ensures Honest(Run(allowed, ports, Launched(b, askNetwork), es).scan) {
        PartialIsExact(allowed, hosts, b, wanted, askNetwork, es);
      }
    } else {
      var es := CompletesUnmarked(allowed, Launched(b, askNetwork));
      assert !Honest(Run(allowed, ports, Launched(b, askNetwork), es).scan);
    }
  }
}
