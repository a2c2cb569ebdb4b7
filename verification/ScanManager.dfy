/** The manager of backend/internal/discovery/manager.go: the methods that change
    a scan under its lock, each proved to be the step of ScanLifecycle, and the
    rule that lets at most one scan run. */
module ScanManager {
  import opened ScanTargets
  import opened ScanLifecycle
  import opened ScanSafety

  class ScanState<A(==)> {
    const targets: TargetSet<A>
    var state: Phase
    var done: nat
    var total: nat
    var answered: nat
    var partial: bool
    const range: nat
    const inventory: nat
    var passive: nat
    const skippedInventory: nat
    var skippedPassive: nat
    var passiveAnswered: nat
    var passiveSeen: set<A>
    var candidates: seq<Candidate<A>>
    var candidateKeys: set<(string, A, int)>
    var tls: seq<TlsTarget<A>>
    var tlsKeys: set<(A, int)>
    var cancelled: bool
    var cancelledBy: string
    var cancelReason: string

    function Now(): Scan<A>
      reads this, targets
    {
      Scan(state, done, total, answered, partial, range, inventory, passive, skippedInventory, skippedPassive, passiveAnswered,
           passiveSeen, targets.addresses, candidates, candidateKeys, tls, tlsKeys, cancelled, cancelledBy, cancelReason)
    }

    /** The scan Start registers. */
    constructor (targets: TargetSet<A>, b: Built<A>)
      requires b.targets == targets.addresses
      ensures Now() == Launched(b, false).scan && this.targets == targets
    {
      this.targets, state, done, total, answered, partial := targets, Running, 0, |b.hosts|, 0, false;
      range, inventory, passive, skippedInventory, skippedPassive := b.range, b.inventory, 0, b.skipped, 0;
      passiveAnswered, passiveSeen, candidates, candidateKeys, tls, tlsKeys := 0, {}, [], {}, [], {};
      cancelled, cancelledBy, cancelReason := false, "", "";
    }

    method OnProgress(p: Progress)
      modifies `done, `answered, `total
      ensures Now() == ScanLifecycle.OnProgress(old(Now()), p)
    {
      if state != Running {
        return;
      }
      if p.done > done {
        done := p.done;
      }
      if p.answered > answered {
        answered := p.answered;
      }
      if p.total > total {
        total := p.total;
      }
    }

    method AdmitPassive(ctx: Ctx, addr: A) returns (ok: bool)
      requires targets.Valid()
      modifies `passiveSeen, `passiveAnswered, `skippedPassive, `passive, `total, targets
      ensures targets.Valid()
      ensures (Now(), ok) == ScanLifecycle.AdmitPassive(targets.allowed, old(Now()), ctx, addr)
    {
      if ctx != Live || cancelled || state != Running || !targets.allowed(addr) || addr in passiveSeen {
        return false;
      }
      passiveSeen := passiveSeen + {addr};
      passiveAnswered := passiveAnswered + 1;
      if addr in targets.addresses {
        return false;
      }
      ok := AdmitNew(addr);
    }

    /** The last part of admitPassive, for an address that is not a target yet. */
    method AdmitNew(addr: A) returns (ok: bool)
      requires targets.Valid() && targets.allowed(addr) && addr !in targets.addresses
      modifies `skippedPassive, `passive, `total, targets
      ensures targets.Valid()
      ensures ok == (|old(targets.addresses)| < MAX_ADDRESSES)
      ensures !ok ==> Now() == old(Now()).(skippedPassive := old(skippedPassive) + 1)
      ensures ok ==> targets.addresses == old(targets.addresses)[addr := FromPassive]
      ensures ok ==> Now() == old(Now()).(targets := targets.addresses, passive := old(passive) + 1, total := |targets.addresses|)
    {
      ok := targets.Admit(addr, FromPassive);
      if !ok {
        skippedPassive := skippedPassive + 1;
        return;
      }
      passive := passive + 1;
      total := |targets.addresses|;
    }

    /** onCandidate once it holds the lock. */
    method OnCandidate(c: Candidate<A>)
      modifies `candidates, `candidateKeys
      ensures Now() == ScanLifecycle.OnCandidate(old(Now()), c)
    {
      if state != Running || cancelled {
        return;
      }
      var key := CandidateKey(c);
      if key in candidateKeys {
        return;
      }
      candidateKeys := candidateKeys + {key};
      candidates := candidates + [c];
    }

    method OnTlsTarget(ctx: Ctx, t: TlsTarget<A>)
      modifies `tls, `tlsKeys
      ensures Now() == ScanLifecycle.OnTlsTarget(old(Now()), ctx, t)
    {
      if ctx != Live || cancelled || state != Running {
        return;
      }
      var key := TlsKey(t);
      if key in tlsKeys {
        return;
      }
      tlsKeys := tlsKeys + {key};
      tls := tls + [t.(origin := OriginOf(targets.addresses, t.address))];
    }

    method Cancel(user: string) returns (found: bool)
      modifies `cancelled, `cancelledBy
      ensures found == (old(state) == Running)
      ensures Now() == CancelledBy(old(Now()), user)
    {
      if state != Running {
        return false;
      }
      if !cancelled {
        cancelledBy := user;
      }
      cancelled := true;
      return true;
    }

    method Shutdown()
      modifies `cancelled, `cancelReason
      ensures Now() == ShutDown(old(Now()))
    {
      if state == Running && !cancelled {
        cancelled := true;
        cancelReason := SHUTDOWN;
      }
    }

    /** The end of run. */
    method Finish(failed: bool, ctx: Ctx)
      modifies `state, `partial
      ensures Now() == Ended(old(Now()), failed, ctx)
    {
      if failed {
        state := Failed;
      } else if cancelled {
        state := Cancelled;
      } else {
        state := Completed;
        partial := ctx == Expired && done < total;
      }
    }
  }

  // ---------------------------------------------------------- starting one

  datatype Launch<A> = NoTargets | TooManyAddresses | Started(sys: Sys<A>)

  /** Start up to its lock: refuses an empty or too large request and otherwise
      hands over a scan from which every reachable state is safe. */
  method PrepareStart<A(==,!new)>(allowed: A -> bool, inside: A -> bool, ranges: nat, hosts: seq<A>, includeInventory: bool, inventory: seq<A>, askNetwork: bool)
    returns (r: Launch<A>)
    requires forall i :: 0 <= i < |hosts| ==> allowed(hosts[i]) && inside(hosts[i])
    requires forall i, j :: 0 <= i < j < |hosts| ==> hosts[i] != hosts[j]
    ensures r.NoTargets? <==> ranges == 0 && !includeInventory
    ensures r.TooManyAddresses? <==> !r.NoTargets? && |hosts| > MAX_ADDRESSES
    ensures r.Started? ==> Safe(allowed, r.sys) && Thorough(r.sys) && r.sys.scan.state == Running
    ensures r.Started? && !includeInventory ==> r.sys.scan.inventory == 0 && r.sys.runner.todo == hosts
  {
    hide Safe, Thorough, Tally;
    if ranges == 0 && !includeInventory {
      return NoTargets;
    }
    if |hosts| > MAX_ADDRESSES {
      return TooManyAddresses;
    }
    var wanted := if includeInventory then inventory else [];
    var b := StartTargets(allowed, inside, hosts, wanted);
    WantedOutside(allowed, inside, hosts, wanted);
    LaunchedIsSafe(allowed, hosts, b, Wanted(allowed, inside, wanted), askNetwork);
    if !includeInventory {
      NothingWanted(allowed, inside, hosts, b);
    }
    return Started(Launched(b, askNetwork));
  }

  lemma WantedOutside<A(!new)>(allowed: A -> bool, inside: A -> bool, hosts: seq<A>, inventory: seq<A>)
    requires forall i :: 0 <= i < |hosts| ==> inside(hosts[i])
    ensures forall a <- Wanted(allowed, inside, inventory) :: a !in hosts
  {
  }

  lemma NothingWanted<A(!new)>(allowed: A -> bool, inside: A -> bool, hosts: seq<A>, b: Built<A>)
    requires Tally(allowed, hosts, b, Wanted(allowed, inside, []))
    ensures b.inventory == 0 && b.hosts == hosts
  {
    assert Wanted(allowed, inside, []) * b.targets.Keys == {};
  }

  // ----------------------------------------------------------- many scans

  /** Every scan ever started, and the one the manager holds, if any. */
  datatype Fleet<A> = Fleet(all: seq<Sys<A>>, held: int)

  datatype Command<A> =
    | Start(built: Built<A>, askNetwork: bool, permitted: bool)  // permitted: the start limit has room
    | Step(i: nat, e: Event<A>)
    | Forget                                                     // Current on an outdated result

  predicate Holds<A>(f: Fleet<A>, i: int) { 0 <= i < |f.all| && f.held == i }

  predicate Busy<A>(f: Fleet<A>) { 0 <= f.held < |f.all| && f.all[f.held].scan.state == Running }

  /** Users reach only the scan that is held; its goroutines may outlive that. */
  function Apply<A(==)>(allowed: A -> bool, ports: bool, f: Fleet<A>, c: Command<A>): Fleet<A> {
    match c
    case Start(b, askNetwork, permitted) =>
      if Busy(f) || !permitted then f else Fleet(f.all + [Launched(b, askNetwork)], |f.all|)
    case Step(i, e) =>
      if i >= |f.all| || ((e.CancelBy? || e.Shutdown?) && !Holds(f, i)) then f
      else f.(all := f.all[i := Next(allowed, ports, f.all[i], e)])
    case Forget => if Busy(f) then f else f.(held := -1)
  }

  function ApplyAll<A(==)>(allowed: A -> bool, ports: bool, f: Fleet<A>, cs: seq<Command<A>>): Fleet<A>
    decreases |cs|
  {
    if cs == [] then f else ApplyAll(allowed, ports, Apply(allowed, ports, f, cs[0]), cs[1..])
  }

  /** A start that is permitted while no scan runs begins a scan that the manager
      holds, and changes no other; any other start changes nothing. */
  lemma StartBegins<A(!new)>(allowed: A -> bool, ports: bool, f: Fleet<A>, b: Built<A>, askNetwork: bool, permitted: bool)
    requires OneAtATime(f)
    ensures var g := Apply(allowed, ports, f, Start(b, askNetwork, permitted));
      if permitted && forall i :: 0 <= i < |f.all| ==> f.all[i].scan.state != Running then
        && |g.all| == |f.all| + 1 && g.held == |f.all| && f.all <= g.all
        && g.all[g.held].scan.state == Running && g.all[g.held].scan.targets == b.targets && g.all[g.held].passiveOver == !askNetwork
      else g == f
  {
  }

  /** A user's cancellation reaches the scan that runs, whichever it is. */
  lemma CancelReachesRunning<A(!new)>(allowed: A -> bool, ports: bool, f: Fleet<A>, i: nat, user: string)
    requires OneAtATime(f) && i < |f.all| && f.all[i].scan.state == Running
    ensures var g := Apply(allowed, ports, f, Step(i, CancelBy(user))); g.all[i].scan.cancelled && g.all[i].ctx != Live
  {
  }

  ghost predicate OneAtATime<A>(f: Fleet<A>) {
    forall i :: 0 <= i < |f.all| && f.all[i].scan.state == Running ==> i == f.held
  }

  lemma StepNeverRestarts<A(!new)>(allowed: A -> bool, ports: bool, s: Sys<A>, e: Event<A>)
    ensures Next(allowed, ports, s, e).scan.state == Running ==> s.scan.state == Running
  {
    if s.scan.state != Running {
      EndedIsFrozen(allowed, ports, s, e);
    }
  }

  lemma ApplyKeepsOne<A(!new)>(allowed: A -> bool, ports: bool, f: Fleet<A>, c: Command<A>)
    requires OneAtATime(f)
    ensures OneAtATime(Apply(allowed, ports, f, c))
  {
    hide Next, Launched;
    if c.Step? && c.i < |f.all| {
      StepNeverRestarts(allowed, ports, f.all[c.i], c.e);
    }
  }

  /** Whatever users, the clock and the goroutines do, at most one scan runs. */
  lemma {:induction false} AtMostOneRunning<A(!new)>(allowed: A -> bool, ports: bool, f: Fleet<A>, cs: seq<Command<A>>)
    requires OneAtATime(f)
    ensures var g := ApplyAll(allowed, ports, f, cs);
      forall i, j :: 0 <= i < |g.all| && 0 <= j < |g.all| && g.all[i].scan.state == Running && g.all[j].scan.state == Running ==> i == j
    ensures OneAtATime(ApplyAll(allowed, ports, f, cs))
    decreases |cs|
  {
    hide Apply;
    if cs != [] {
      ApplyKeepsOne(allowed, ports, f, cs[0]);
      AtMostOneRunning(allowed, ports, Apply(allowed, ports, f, cs[0]), cs[1..]);
    }
  }
}
