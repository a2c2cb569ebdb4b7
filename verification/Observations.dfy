/** When the joined dedup keys of collectLinks (backend/internal/doc/linking.go) tell
    observations apart, and how they can fail to. */
module Observations {
  import opened Linking
  import opened Topology

  /** No character that the keys are joined with. */
  predicate Plain(s: string) { '|' !in s && '>' !in s }

  predicate PlainEntity(e: Entity) {
    Plain(e.kind) && Plain(e.externalID) && Plain(e.name) && Plain(e.ip) && Plain(e.hostname)
  }

  /** One external id within a kind, or none and the same name, address and hostname. */
  predicate SameObservation(a: Entity, b: Entity) {
    && a.kind == b.kind && a.externalID == b.externalID
    && (a.externalID == "" ==> a.name == b.name && a.ip == b.ip && a.hostname == b.hostname)
  }

  lemma SplitAt(c: char, a: string, x: string, b: string, y: string)
    requires c !in a && c !in b && a + [c] + x == b + [c] + y
    ensures a == b && x == y
  {
    var s := a + [c] + x;
    assert s[|a|] == c && s[|b|] == c;
    assert |a| == |b|;
    assert a == s[..|a|] && b == s[..|b|];
    assert x == s[|a| + 1..] && y == s[|b| + 1..];
  }

  /** What follows connector and kind in a key. */
  function Rest(e: Entity): string {
    if e.externalID != "" then e.externalID else e.name + "|" + (e.ip + "|" + e.hostname)
  }

  lemma DedupParts(id: string, e: Entity)
    ensures Dedup(id, e) == id + "|" + (e.kind + "|" + Rest(e))
  {
  }

  lemma RestHasBar(e: Entity)
    requires e.externalID == ""
    ensures '|' in Rest(e)
  {
    assert Rest(e)[|e.name|] == '|';
  }

  lemma SameRest(a: Entity, b: Entity)
    requires PlainEntity(a) && PlainEntity(b) && Rest(a) == Rest(b) && a.kind == b.kind
    ensures SameObservation(a, b)
  {
    if a.externalID == "" && b.externalID == "" {
      SplitAt('|', a.name, a.ip + "|" + a.hostname, b.name, b.ip + "|" + b.hostname);
      SplitAt('|', a.ip, a.hostname, b.ip, b.hostname);
    } else if a.externalID == "" {
      RestHasBar(a);
    } else if b.externalID == "" {
      RestHasBar(b);
    }
  }

  /** Without a bar in the fields a key stands for exactly one observation. */
  lemma DedupExactly(x: string, a: Entity, y: string, b: Entity)
    requires Plain(x) && Plain(y) && PlainEntity(a) && PlainEntity(b)
    ensures Dedup(x, a) == Dedup(y, b) <==> x == y && SameObservation(a, b)
  {
    DedupParts(x, a);
    DedupParts(y, b);
    if Dedup(x, a) == Dedup(y, b) {
      SplitAt('|', x, a.kind + "|" + Rest(a), y, b.kind + "|" + Rest(b));
      SplitAt('|', a.kind, Rest(a), b.kind, Rest(b));
      SameRest(a, b);
    }
  }

  lemma DedupIsPlain(x: string, a: Entity)
    requires Plain(x) && PlainEntity(a)
    ensures '>' !in Dedup(x, a)
  {
  }

  /** Distinct plain connectors, none of which observes anything twice. */
  ghost predicate PlainWorld(world: seq<Connector>) {
    && DistinctIds(world)
    && (forall i :: 0 <= i < |world| ==> Plain(world[i].id) && '\0' !in world[i].id)
    && (forall i, k :: 0 <= i < |world| && 0 <= k < |world[i].entities| ==> PlainEntity(world[i].entities[k]))
    && (forall i, k, l :: 0 <= i < |world| && 0 <= k < l < |world[i].entities| ==> !SameObservation(world[i].entities[k], world[i].entities[l]))
  }

  lemma OneObservation(world: seq<Connector>, i: nat, k: nat, j: nat, l: nat)
    requires PlainWorld(world) && i < |world| && j < |world| && k < |world[i].entities| && l < |world[j].entities|
    requires Dedup(world[i].id, world[i].entities[k]) == Dedup(world[j].id, world[j].entities[l])
    ensures i == j && k == l
  {
    hide Dedup, PlainEntity, SameObservation;
    DedupExactly(world[i].id, world[i].entities[k], world[j].id, world[j].entities[l]);
    SameObservationSwaps(world[i].entities[k], world[j].entities[l]);
  }

  lemma SameObservationSwaps(a: Entity, b: Entity)
    ensures SameObservation(a, b) == SameObservation(b, a)
  {
  }

  /** Then no two pairs have one key, so a rebuild keeps every link. */
  lemma PlainWorldIsWorld(world: seq<Connector>)
    requires PlainWorld(world)
    ensures World(world)
  {
    hide PlainWorld, PairKey;
    forall i | 0 <= i < |world| ensures '\0' !in world[i].id && DistinctPairs(world, world[i]) {
      forall ci, oi, mi, cj, oj, mj |
        IsPair(world, world[i], ci, oi, mi) && IsPair(world, world[i], cj, oj, mj)
        && PairKey(world, world[i], ci, oi, mi) == PairKey(world, world[i], cj, oj, mj)
        ensures ci == cj && oi == oj && mi == mj
      {
        OnePair(world, i, ci, oi, mi, cj, oj, mj);
      }
      PlainIds(world, i);
    }
    assert DistinctIds(world) by { PlainIdsDiffer(world); }
  }

  lemma PlainIds(world: seq<Connector>, i: nat)
    requires PlainWorld(world) && i < |world|
    ensures '\0' !in world[i].id && Plain(world[i].id)
    ensures forall k :: 0 <= k < |world[i].entities| ==> PlainEntity(world[i].entities[k])
  {
  }

  lemma PlainIdsDiffer(world: seq<Connector>)
    requires PlainWorld(world)
    ensures DistinctIds(world)
  {
  }

  lemma OnePair(world: seq<Connector>, i: nat, ci: nat, oi: nat, mi: nat, cj: nat, oj: nat, mj: nat)
    requires PlainWorld(world) && i < |world|
    requires IsPair(world, world[i], ci, oi, mi) && IsPair(world, world[i], cj, oj, mj)
    requires PairKey(world, world[i], ci, oi, mi) == PairKey(world, world[i], cj, oj, mj)
    ensures ci == cj && oi == oj && mi == mj
  {
    hide PlainWorld, Dedup, PlainEntity;
    PlainIds(world, ci);
    PlainIds(world, cj);
    var a, b := world[ci].entities[oi], world[cj].entities[oj];
    DedupIsPlain(world[ci].id, a);
    DedupIsPlain(world[cj].id, b);
    SplitAt('>', Dedup(world[ci].id, a), Dedup(world[i].id, world[i].entities[mi]), Dedup(world[cj].id, b), Dedup(world[i].id, world[i].entities[mj]));
    OneObservation(world, ci, oi, cj, oj);
    OneObservation(world, i, mi, i, mj);
  }

  // ------------------------------------------------------------ when links are lost

  function LinkKey(x: Connector, l: Link): string { DedupPair(l.connectorID, l.entity, x.id, l.local) }

  lemma LinkHasKey(fold: Fold, world: seq<Connector>, x: Connector, ci: int, oi: int, mi: int, l: Link)
    requires LinkAt(fold, world, x, ci, oi, mi, l)
    ensures Keyed(fold, world, x, ci, oi, mi, LinkKey(x, l)) && PairKey(world, x, ci, oi, mi) == LinkKey(x, l)
  {
    hide MatchReason, DedupPair;
  }

  /** The first pair with the key of a link. */
  lemma {:induction false} FirstOfKey(fold: Fold, world: seq<Connector>, x: Connector, ci: nat, oi: nat, mi: nat, l: Link) returns (k: Link)
    requires LinkAt(fold, world, x, ci, oi, mi, l)
    ensures IsFirstLink(fold, world, x, k) && LinkKey(x, k) == LinkKey(x, l)
    decreases ci, oi, mi
  {
    hide LinkAt, DedupPair, PairKey;
    LinkHasKey(fold, world, x, ci, oi, mi, l);
    if cj, oj, mj :| Before(cj, oj, mj, ci, oi, mi) && Keyed(fold, world, x, cj, oj, mj, LinkKey(x, l)) {
      var j :| LinkAt(fold, world, x, cj, oj, mj, j);
      AtIndices(fold, world, x, cj, oj, mj, j);
      LinkHasKey(fold, world, x, cj, oj, mj, j);
      k := FirstOfKey(fold, world, x, cj, oj, mj, j);
    } else {
      AtIndices(fold, world, x, ci, oi, mi, l);
      assert FirstLink(fold, world, x, ci, oi, mi, l);
      k := l;
    }
  }

  lemma AtIndices(fold: Fold, world: seq<Connector>, x: Connector, ci: int, oi: int, mi: int, l: Link)
    requires LinkAt(fold, world, x, ci, oi, mi, l)
    ensures ci >= 0 && oi >= 0 && mi >= 0
    ensures IsLink(fold, world, x, l)
  {
    hide MatchReason;
  }

  /** Two first links with one key are the same. */
  lemma FirstIsUnique(fold: Fold, world: seq<Connector>, x: Connector, l: Link, k: Link)
    requires IsFirstLink(fold, world, x, l) && IsFirstLink(fold, world, x, k) && LinkKey(x, l) == LinkKey(x, k)
    ensures l == k
  {
    hide LinkAt, DedupPair, PairKey;
    var ci, oi, mi :| FirstLink(fold, world, x, ci, oi, mi, l);
    var cj, oj, mj :| FirstLink(fold, world, x, cj, oj, mj, k);
    LinkHasKey(fold, world, x, ci, oi, mi, l);
    LinkHasKey(fold, world, x, cj, oj, mj, k);
    assert ci == cj && oi == oj && mi == mj;
    OneLinkAt(fold, world, x, ci, oi, mi, l, k);
  }

  lemma OneLinkAt(fold: Fold, world: seq<Connector>, x: Connector, ci: int, oi: int, mi: int, l: Link, k: Link)
    requires LinkAt(fold, world, x, ci, oi, mi, l) && LinkAt(fold, world, x, ci, oi, mi, k)
    ensures l == k
  {
    hide MatchReason;
  }

  /** No link is lost if and only if no two different links have one key. */
  lemma NoLinkIsLostExactly(fold: Fold, world: seq<Connector>, x: Connector)
    ensures (forall l :: IsLink(fold, world, x, l) ==> IsFirstLink(fold, world, x, l))
            <==> (forall l, k :: IsLink(fold, world, x, l) && IsLink(fold, world, x, k) && LinkKey(x, l) == LinkKey(x, k) ==> l == k)
  {
    hide LinkAt, LinkKey, FirstLink;
    if forall l :: IsLink(fold, world, x, l) ==> IsFirstLink(fold, world, x, l) {
      forall l, k | IsLink(fold, world, x, l) && IsLink(fold, world, x, k) && LinkKey(x, l) == LinkKey(x, k) ensures l == k {
        FirstIsUnique(fold, world, x, l, k);
      }
    }
    if forall l, k :: IsLink(fold, world, x, l) && IsLink(fold, world, x, k) && LinkKey(x, l) == LinkKey(x, k) ==> l == k {
      forall l | IsLink(fold, world, x, l) ensures IsFirstLink(fold, world, x, l) {
        var ci, oi, mi :| LinkAt(fold, world, x, ci, oi, mi, l);
        AtIndices(fold, world, x, ci, oi, mi, l);
        var k := FirstOfKey(fold, world, x, ci, oi, mi, l);
        FirstIsLink(fold, world, x, k);
      }
    }
  }

  lemma FirstIsLink(fold: Fold, world: seq<Connector>, x: Connector, l: Link)
    requires IsFirstLink(fold, world, x, l)
    ensures IsLink(fold, world, x, l)
  {
    hide LinkAt, Keyed, Before;
  }

  /** An external id that reads like the other fields of a second machine: the two have one
      key, and the second one's link is never collected. */
  lemma BarInIdLosesLink(fold: Fold)
    ensures var a, b := Entity("host", "", "n|10.0.0.5|h", "", "h", []), Entity("host", "n", "", "10.0.0.5", "h", []);
            var x := Connector("1", "", [Entity("vm", "", "", "", "h", [])]);
            var l := Link(b, x.entities[0], "2", Hostname);
            var world := [x, Connector("2", "", [a, b])];
            IsLink(fold, world, x, l) && !IsFirstLink(fold, world, x, l)
  {
    var a, b := Entity("host", "", "n|10.0.0.5|h", "", "h", []), Entity("host", "n", "", "10.0.0.5", "h", []);
    var mine := Entity("vm", "", "", "", "h", []);
    var x := Connector("1", "", [mine]);
    var world := [x, Connector("2", "", [a, b])];
    var l, k := Link(b, mine, "2", Hostname), Link(a, mine, "2", Hostname);
    SameHostMatches(fold, mine, a);
    SameHostMatches(fold, mine, b);
    assert LinkAt(fold, world, x, 1, 1, 0, l) && LinkAt(fold, world, x, 1, 0, 0, k);
    SameKeys(a, b);
    assert LinkKey(x, l) == LinkKey(x, k) && Before(1, 0, 0, 1, 1, 0);
    if IsFirstLink(fold, world, x, l) {
      var ci, oi, mi :| FirstLink(fold, world, x, ci, oi, mi, l);
      OnlyAtOne(fold, world, x, ci, oi, mi, l);
      LinkHasKey(fold, world, x, 1, 0, 0, k);
      LinkHasKey(fold, world, x, 1, 1, 0, l);
    }
  }

  lemma SameHostMatches(fold: Fold, a: Entity, b: Entity)
    requires a.hostname == b.hostname != "" && a.externalID == "" && a.ip == ""
    ensures MatchReason(fold, a, b) == Hostname
  {
    MatchReasonExactly(fold, a, b);
    assert HasName(a, a.hostname) && HasName(b, a.hostname);
  }

  lemma SameKeys(a: Entity, b: Entity)
    requires a == Entity("host", "", "n|10.0.0.5|h", "", "h", []) && b == Entity("host", "n", "", "10.0.0.5", "h", [])
    ensures Dedup("2", a) == Dedup("2", b)
  {
    assert "n|10.0.0.5|h" == "n" + "|" + "10.0.0.5" + "|" + "h";
  }

  lemma OnlyAtOne(fold: Fold, world: seq<Connector>, x: Connector, ci: int, oi: int, mi: int, l: Link)
    requires |world| == 2 && world[0] == x && |world[1].entities| == 2 && |x.entities| == 1 && world[1].entities[0] != l.entity
    requires LinkAt(fold, world, x, ci, oi, mi, l)
    ensures ci == 1 && oi == 1 && mi == 0
  {
    hide MatchReason;
  }
}
