/** The addresses a scan may probe: backend/internal/discovery/target_set.go, and
    the first part of Start in backend/internal/discovery/manager.go. Addresses
    are values of any type, already unmapped; `allowed` stands for Allowed. */
module ScanTargets {
  const MAX_ADDRESSES := 1024

  datatype Source = FromRange | FromInventory | FromPassive

  /** The set after an Admit call, and whether the address was added. */
  function Admitted<A(==)>(allowed: A -> bool, addresses: map<A, Source>, addr: A, source: Source): (map<A, Source>, bool) {
    if !allowed(addr) || addr in addresses || |addresses| >= MAX_ADDRESSES then (addresses, false)
    else (addresses[addr := source], true)
  }

  class TargetSet<A(==)> {
    const allowed: A -> bool
    var addresses: map<A, Source>

    /** The budget, and only permitted addresses. */
    ghost predicate Valid()
      reads this
    {
      |addresses| <= MAX_ADDRESSES && forall a :: a in addresses ==> allowed(a)
    }

    /** NewTargetSet over the hosts of validated ranges. */
    constructor (allowed: A -> bool, hosts: seq<A>)
      requires forall i :: 0 <= i < |hosts| ==> allowed(hosts[i])
      requires forall i, j :: 0 <= i < j < |hosts| ==> hosts[i] != hosts[j]
      ensures Valid() && this.allowed == allowed
      ensures |hosts| <= MAX_ADDRESSES ==> |addresses| == |hosts| && addresses.Keys == set a | a in hosts
      ensures forall a :: a in addresses ==> a in hosts && addresses[a] == FromRange
    {
      var m: map<A, Source> := map[];
      var i := 0;
      while i < |hosts| && |m| != MAX_ADDRESSES
        invariant i <= |hosts| && |m| == i <= MAX_ADDRESSES
        invariant forall a :: a in m <==> a in hosts[..i]
        invariant forall a :: a in m ==> m[a] == FromRange
      {
        assert hosts[i] !in hosts[..i];
        assert hosts[..i + 1] == hosts[..i] + [hosts[i]];
        m := m[hosts[i] := FromRange];
        i := i + 1;
      }
      assert i == |hosts| ==> hosts[..i] == hosts;
      this.allowed, addresses := allowed, m;
    }

    method Admit(addr: A, source: Source) returns (ok: bool)
      requires Valid()
      modifies this
      ensures Valid()
      ensures (addresses, ok) == Admitted(allowed, old(addresses), addr, source)
      ensures forall a :: a in old(addresses) ==> a in addresses && addresses[a] == old(addresses)[a]
    {
      if !allowed(addr) {
        return false;
      }
      if addr in addresses || |addresses| >= MAX_ADDRESSES {
        return false;
      }
      addresses := addresses[addr := source];
      return true;
    }
  }

  /** What Start works out before it takes the lock: the set, the hosts handed
      to the scanner in order, and the counters. */
  datatype Built<A> = Built(targets: map<A, Source>, hosts: seq<A>, range: nat, inventory: nat, skipped: nat)

  ghost predicate Listed<A(!new)>(targets: map<A, Source>, hosts: seq<A>) {
    && |hosts| == |targets|
    && (forall a :: a in targets <==> a in hosts)
  }

  /** The wanted inventory addresses are counted exactly once each, as admitted
      or as skipped, and one is skipped only by a full budget. */
  ghost predicate Accounted<A>(b: Built<A>, wanted: set<A>) {
    && b.inventory == |wanted * b.targets.Keys|
    && b.skipped == |wanted - b.targets.Keys|
    && (b.skipped > 0 ==> |b.targets| == MAX_ADDRESSES)
  }

  /** Where Start stands once it has looked at the inventory addresses `wanted`. */
  ghost predicate Tally<A(!new)>(allowed: A -> bool, hosts: seq<A>, b: Built<A>, wanted: set<A>) {
    && b.range == |hosts| && b.range + b.inventory == |b.targets| <= MAX_ADDRESSES
    && Listed(b.targets, b.hosts) && hosts <= b.hosts
    && (forall a :: a in b.targets ==> allowed(a) && (a in hosts || a in wanted))
    && (forall a :: a in b.targets ==> b.targets[a] == if a in hosts then FromRange else FromInventory)
    && Accounted(b, wanted)
  }

  lemma AccountedAdd<A(!new)>(b: Built<A>, wanted: set<A>, addr: A, source: Source)
    requires Accounted(b, wanted) && addr !in b.targets && addr !in wanted
    requires |b.targets| < MAX_ADDRESSES
    ensures Accounted(b.(targets := b.targets[addr := source], hosts := b.hosts + [addr], inventory := b.inventory + 1), wanted + {addr})
  {
    var after := b.targets[addr := source];
    assert (wanted + {addr}) * after.Keys == wanted * b.targets.Keys + {addr};
    assert (wanted + {addr}) - after.Keys == wanted - b.targets.Keys;
  }

  lemma AccountedSkip<A(!new)>(b: Built<A>, wanted: set<A>, addr: A)
    requires Accounted(b, wanted) && addr !in b.targets && addr !in wanted
    requires |b.targets| == MAX_ADDRESSES
    ensures Accounted(b.(skipped := b.skipped + 1), wanted + {addr})
  {
    var keys := b.targets.Keys;
    SkippedSets(keys, wanted, addr);
    assert |wanted - keys + {addr}| == |wanted - keys| + 1;
  }

  lemma SkippedSets<A>(keys: set<A>, wanted: set<A>, addr: A)
    requires addr !in keys && addr !in wanted
    ensures (wanted + {addr}) * keys == wanted * keys
    ensures (wanted + {addr}) - keys == wanted - keys + {addr}
  {
  }

  lemma ListedAdd<A(!new)>(targets: map<A, Source>, hosts: seq<A>, addr: A, source: Source)
    requires Listed(targets, hosts) && addr !in targets
    ensures Listed(targets[addr := source], hosts + [addr])
  {
  }

  /** One wanted address more: admitted while there is room, skipped once full. */
  lemma TallyStep<A(!new)>(allowed: A -> bool, hosts: seq<A>, b: Built<A>, wanted: set<A>, addr: A)
    requires Tally(allowed, hosts, b, wanted)
    requires allowed(addr) && addr !in hosts && addr !in wanted
    ensures addr !in b.targets
    ensures |b.targets| < MAX_ADDRESSES ==>
      Tally(allowed, hosts, b.(targets := b.targets[addr := FromInventory], hosts := b.hosts + [addr], inventory := b.inventory + 1), wanted + {addr})
    ensures |b.targets| >= MAX_ADDRESSES ==> Tally(allowed, hosts, b.(skipped := b.skipped + 1), wanted + {addr})
  {
    hide Accounted, Listed;
    if |b.targets| < MAX_ADDRESSES {
      AccountedAdd(b, wanted, addr, FromInventory);
      ListedAdd(b.targets, b.hosts, addr, FromInventory);
    } else {
      AccountedSkip(b, wanted, addr);
    }
  }

  lemma TallyStart<A(!new)>(allowed: A -> bool, hosts: seq<A>, targets: map<A, Source>)
    requires |targets| == |hosts| <= MAX_ADDRESSES && targets.Keys == set a | a in hosts
    requires forall a :: a in targets ==> allowed(a) && a in hosts && targets[a] == FromRange
    ensures Tally(allowed, hosts, Built(targets, hosts, |hosts|, 0, 0), {})
  {
    assert forall a :: a in targets <==> a in targets.Keys;
    assert {} * targets.Keys == {};
  }

  /** The inventory addresses Start asks for: permitted, and in no typed range. */
  ghost function Wanted<A>(allowed: A -> bool, inside: A -> bool, inventory: seq<A>): set<A> {
    set a | a in inventory && allowed(a) && !inside(a)
  }

  lemma WantedNone<A>(allowed: A -> bool, inside: A -> bool, inventory: seq<A>)
    ensures Wanted(allowed, inside, inventory[..0]) == {}
  {
  }

  lemma WantedNext<A>(allowed: A -> bool, inside: A -> bool, inventory: seq<A>, k: nat)
    requires k < |inventory|
    ensures Wanted(allowed, inside, inventory[..k + 1])
         == Wanted(allowed, inside, inventory[..k]) + if allowed(inventory[k]) && !inside(inventory[k]) then {inventory[k]} else {}
  {
    assert inventory[..k + 1] == inventory[..k] + [inventory[k]];
  }

  method StartTargets<A(==,!new)>(allowed: A -> bool, inside: A -> bool, hosts: seq<A>, inventory: seq<A>) returns (b: Built<A>)
    requires |hosts| <= MAX_ADDRESSES
    requires forall i :: 0 <= i < |hosts| ==> allowed(hosts[i]) && inside(hosts[i])
    requires forall i, j :: 0 <= i < j < |hosts| ==> hosts[i] != hosts[j]
    ensures Tally(allowed, hosts, b, Wanted(allowed, inside, inventory))
  {
    hide Tally, Wanted;
    var targets := new TargetSet(allowed, hosts);
    TallyStart(allowed, hosts, targets.addresses);
    var listed, admitted, skipped, seen: set<A> := hosts, 0, 0, {};
    WantedNone(allowed, inside, inventory);
    for k := 0 to |inventory|
      invariant targets.Valid() && targets.allowed == allowed
      invariant seen == Wanted(allowed, inside, inventory[..k])
      invariant Tally(allowed, hosts, Built(targets.addresses, listed, |hosts|, admitted, skipped), seen)
    {
      var addr := inventory[k];
      WantedNext(allowed, inside, inventory, k);
      if !allowed(addr) || addr in seen || inside(addr) {
        continue;
      }
      TallyStep(allowed, hosts, Built(targets.addresses, listed, |hosts|, admitted, skipped), seen, addr);
      seen := seen + {addr};
      var ok := targets.Admit(addr, FromInventory);
      if ok {
        listed := listed + [addr];
        admitted := admitted + 1;
      } else {
        skipped := skipped + 1;
      }
    }
    assert inventory[..|inventory|] == inventory;
    b := Built(targets.addresses, listed, |hosts|, admitted, skipped);
  }

  /** The inventory addresses that are permitted and in no typed range: each is a target
      unless the budget is full, and together they are the counted and skipped ones. */
  lemma InventoryIsTargeted<A(!new)>(allowed: A -> bool, inside: A -> bool, hosts: seq<A>, inventory: seq<A>, b: Built<A>)
    requires (forall i :: 0 <= i < |hosts| ==> inside(hosts[i])) && Tally(allowed, hosts, b, Wanted(allowed, inside, inventory))
    ensures forall a :: a in inventory && allowed(a) && !inside(a) && |b.targets| < MAX_ADDRESSES ==>
              a in b.targets && b.targets[a] == FromInventory
    ensures b.inventory + b.skipped == |set a | a in inventory && allowed(a) && !inside(a)|
  {
    hide Listed, Accounted;
    var wanted := set a | a in inventory && allowed(a) && !inside(a);
    assert Wanted(allowed, inside, inventory) == wanted;
    AccountedSplit(b, wanted);
  }

  lemma AccountedSplit<A>(b: Built<A>, wanted: set<A>)
    requires Accounted(b, wanted)
    ensures b.inventory + b.skipped == |wanted|
    ensures |b.targets| < MAX_ADDRESSES ==> wanted <= b.targets.Keys
  {
    assert wanted == wanted * b.targets.Keys + (wanted - b.targets.Keys);
  }
}
