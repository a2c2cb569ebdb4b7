/** One network scan as a state machine: the scan record kept by the manager
    (backend/internal/discovery/manager.go), the scheduling and counting skeleton
    of the scanner (backend/internal/discovery/scanner.go), the passive source,
    and the context that cancels them. Every event is one atomic step of one
    goroutine, so a run of events is an interleaving of all of them. */
module ScanLifecycle {
  import opened ScanTargets

  datatype Phase = Running | Completed | Cancelled | Failed

  /** Why the scan's context is done, if it is. */
  datatype Ctx = Live | Expired | Stopped

  datatype Origin = NoOrigin | Origin(source: Source)

  datatype Candidate<A> = Candidate(kind: string, address: A, port: int, origin: Origin)

  datatype TlsTarget<A> = TlsTarget(address: A, port: int, origin: Origin)

  datatype Progress = Progress(done: nat, total: nat, answered: nat)

  const SHUTDOWN := "shutdown"

  /** scanState: everything the manager's callbacks change under its lock. */
  datatype Scan<A> = Scan(
    state: Phase, done: nat, total: nat, answered: nat, partial: bool,
    range: nat, inventory: nat, passive: nat,
    skippedInventory: nat, skippedPassive: nat, passiveAnswered: nat,
    passiveSeen: set<A>, targets: map<A, Source>,
    candidates: seq<Candidate<A>>, candidateKeys: set<(string, A, int)>,
    tls: seq<TlsTarget<A>>, tlsKeys: set<(A, int)>,
    cancelled: bool, cancelledBy: string, cancelReason: string)

  function Max(a: nat, b: nat): nat { if a > b then a else b }

  function OriginOf<A(==)>(targets: map<A, Source>, a: A): Origin {
    if a in targets then Origin(targets[a]) else NoOrigin
  }

  function CandidateKey<A>(c: Candidate<A>): (string, A, int) { (c.kind, c.address, c.port) }

  function TlsKey<A>(t: TlsTarget<A>): (A, int) { (t.address, t.port) }

  // ------------------------------------------------ the manager's callbacks

  function OnProgress<A>(s: Scan<A>, p: Progress): Scan<A> {
    if s.state != Running then s
    else s.(done := Max(p.done, s.done), answered := Max(p.answered, s.answered), total := Max(p.total, s.total))
  }

  /** The scan after a passive answer, and whether the address goes to the scanner. */
  function AdmitPassive<A(==)>(allowed: A -> bool, s: Scan<A>, ctx: Ctx, a: A): (Scan<A>, bool) {
    if ctx != Live || s.cancelled || s.state != Running || !allowed(a) || a in s.passiveSeen then (s, false)
    else
      var s1 := s.(passiveSeen := s.passiveSeen + {a}, passiveAnswered := s.passiveAnswered + 1);
      if a in s.targets then (s1, false)
      else
        var (targets, ok) := Admitted(allowed, s.targets, a, FromPassive);
        if !ok then (s1.(skippedPassive := s.skippedPassive + 1), false)
        else (s1.(targets := targets, passive := s.passive + 1, total := |targets|), true)
  }

  function OnCandidate<A(==)>(s: Scan<A>, c: Candidate<A>): Scan<A> {
    if s.state != Running || s.cancelled || CandidateKey(c) in s.candidateKeys then s
    else s.(candidateKeys := s.candidateKeys + {CandidateKey(c)}, candidates := s.candidates + [c])
  }

  function OnTlsTarget<A(==)>(s: Scan<A>, ctx: Ctx, t: TlsTarget<A>): Scan<A> {
    if ctx != Live || s.cancelled || s.state != Running || TlsKey(t) in s.tlsKeys then s
    else s.(tlsKeys := s.tlsKeys + {TlsKey(t)}, tls := s.tls + [t.(origin := OriginOf(s.targets, t.address))])
  }

  function CancelledBy<A>(s: Scan<A>, user: string): Scan<A> {
    if s.state != Running then s
    else s.(cancelled := true, cancelledBy := if s.cancelled then s.cancelledBy else user)
  }

  function ShutDown<A>(s: Scan<A>): Scan<A> {
    if s.state != Running || s.cancelled then s else s.(cancelled := true, cancelReason := SHUTDOWN)
  }

  /** The end of run, under the lock. */
  function Ended<A>(s: Scan<A>, failed: bool, ctx: Ctx): Scan<A> {
    if failed then s.(state := Failed)
    else if s.cancelled then s.(state := Cancelled)
    else s.(state := Completed, partial := ctx == Expired && s.done < s.total)
  }

  // ------------------------------------------------------- the whole system

  datatype RunnerAt = AtHosts | AtLate | Returned | Panicked

  /** Scanner.Run: the static hosts still to schedule, the hosts scheduled, the
      ones whose goroutine is at work, that had an open port, that were counted
      as done; and the counts on their way to the manager, before and after the
      other two counters were read. */
  datatype Runner<A> = Runner(
    at: RunnerAt, todo: seq<A>,
    seen: set<A>, active: set<A>, replied: set<A>, finished: set<A>,
    counted: set<nat>, reports: set<Progress>, prepared: multiset<Candidate<A>>)

  /** The scan, its context, the runner, and the passive source: addresses that
      were admitted and not sent yet, and the channel of late hosts. */
  datatype Sys<A> = Sys(
    scan: Scan<A>, ctx: Ctx, runner: Runner<A>,
    admitting: set<A>, late: seq<A>, passiveOver: bool)

  datatype Event<A> =
    | Schedule | Reply(h: A) | FinishHost(h: A) | Abandon(h: A)
    | ReadCounters(d: nat) | Deliver(p: Progress)
    | Prepare(kind: string, h: A, port: int) | Commit(c: Candidate<A>)
    | FoundTls(h: A, port: int)
    | HostsDone | TakeLate | Return | Panic
    | Answer(a: A) | Send(a: A) | Drop(a: A) | PassiveEnds
    | CancelBy(user: string) | Shutdown | Expire | End

  /** schedule in Scanner.Run; without any port to probe a host is only counted. */
  function Scheduled<A(==)>(r: Runner<A>, targets: map<A, Source>, ports: bool, h: A): Runner<A> {
    if h !in targets || h in r.seen then r
    else r.(seen := r.seen + {h}, active := if ports then r.active + {h} else r.active)
  }

  /** wg.Wait would return. */
  predicate Idle<A>(r: Runner<A>) {
    r.active == {} && r.counted == {} && r.reports == {} && |r.prepared| == 0
  }

  predicate Enabled<A(==)>(s: Sys<A>, e: Event<A>) {
    var r := s.runner;
    match e
    case Schedule => r.at == AtHosts && r.todo != []
    case Reply(h) => h in r.active && h !in r.replied
    case FinishHost(h) => h in r.active
    case Abandon(h) => h in r.active && s.ctx != Live
    case ReadCounters(d) => d in r.counted
    case Deliver(p) => p in r.reports
    case Prepare(_, h, _) => h in r.active && h in r.replied && s.ctx == Live
    case Commit(c) => c in r.prepared
    case FoundTls(h, _) => h in r.active && h in r.replied
    case HostsDone => r.at == AtHosts && r.todo == [] && Idle(r)
    case TakeLate => r.at == AtLate && s.late != []
    case Return => r.at == AtLate && ((s.late == [] && s.passiveOver) || s.ctx != Live) && Idle(r)
    case Panic => r.at == AtHosts || r.at == AtLate
    case Answer(_) => !s.passiveOver
    case Send(a) => a in s.admitting && |s.late| < MAX_ADDRESSES
    case Drop(a) => a in s.admitting && s.ctx != Live
    case PassiveEnds => !s.passiveOver && s.admitting == {}
    case CancelBy(_) => true
    case Shutdown => true
    case Expire => s.ctx == Live
    case End => s.scan.state == Running && (r.at == Returned || r.at == Panicked) && s.passiveOver
  }

  function Stop(c: Ctx): Ctx { if c == Live then Stopped else c }

  function Effect<A(==)>(allowed: A -> bool, ports: bool, s: Sys<A>, e: Event<A>): Sys<A>
    requires Enabled(s, e)
  {
    var r := s.runner;
    match e
    case Schedule => s.(runner := Scheduled(r, s.scan.targets, ports, r.todo[0]).(todo := r.todo[1..]))
    case Reply(h) => s.(runner := r.(replied := r.replied + {h}))
    case FinishHost(h) => s.(runner := r.(active := r.active - {h}, finished := r.finished + {h}, counted := r.counted + {|r.finished + {h}|}))
    case Abandon(h) => s.(runner := r.(active := r.active - {h}))
    case ReadCounters(d) => s.(runner := r.(counted := r.counted - {d}, reports := r.reports + {Progress(d, |r.seen|, |r.replied|)}))
    case Deliver(p) => s.(runner := r.(reports := r.reports - {p}), scan := OnProgress(s.scan, p))
    case Prepare(kind, h, port) =>
      s.(runner := r.(prepared := r.prepared + multiset{Candidate(kind, h, port, OriginOf(s.scan.targets, h))}))
    case Commit(c) => s.(runner := r.(prepared := r.prepared - multiset{c}), scan := OnCandidate(s.scan, c))
    case FoundTls(h, port) => s.(scan := OnTlsTarget(s.scan, s.ctx, TlsTarget(h, port, NoOrigin)))
    case HostsDone => s.(runner := r.(at := AtLate))
    case TakeLate => s.(runner := Scheduled(r, s.scan.targets, ports, s.late[0]), late := s.late[1..])
    case Return => s.(runner := r.(at := Returned))
    case Panic => s.(runner := r.(at := Panicked), ctx := Stop(s.ctx))
    case Answer(a) =>
      var (scan, ok) := AdmitPassive(allowed, s.scan, s.ctx, a);
      s.(scan := scan, admitting := if ok then s.admitting + {a} else s.admitting)
    case Send(a) => s.(admitting := s.admitting - {a}, late := s.late + [a])
    case Drop(a) => s.(admitting := s.admitting - {a})
    case PassiveEnds => s.(passiveOver := true)
    case CancelBy(user) => if s.scan.state != Running then s else s.(scan := CancelledBy(s.scan, user), ctx := Stop(s.ctx))
    case Shutdown => s.(scan := ShutDown(s.scan), ctx := Stop(s.ctx))
    case Expire => s.(ctx := Expired)
    case End => s.(scan := Ended(s.scan, r.at == Panicked, s.ctx), ctx := Stop(s.ctx))
  }

  /** An event that cannot happen in a state changes nothing. */
  function Next<A(==)>(allowed: A -> bool, ports: bool, s: Sys<A>, e: Event<A>): Sys<A> {
    if Enabled(s, e) then Effect(allowed, ports, s, e) else s
  }

  function Run<A(==)>(allowed: A -> bool, ports: bool, s: Sys<A>, es: seq<Event<A>>): Sys<A>
    decreases |es|
  {
    if es == [] then s else Run(allowed, ports, Next(allowed, ports, s, es[0]), es[1..])
  }

  /** The system Start launches over the addresses it worked out. */
  function Launched<A>(b: Built<A>, askNetwork: bool): Sys<A> {
    Sys(Scan(Running, 0, |b.hosts|, 0, false, b.range, b.inventory, 0, b.skipped, 0, 0, {}, b.targets,
             [], {}, [], {}, false, "", ""),
        Live, Runner(AtHosts, b.hosts, {}, {}, {}, {}, {}, {}, multiset{}), {}, [], !askNetwork)
  }
}
