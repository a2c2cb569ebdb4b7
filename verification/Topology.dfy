/** Persisted cross-connector edges: the allPairs part of collectLinks and
    capIPOnlyLinks (backend/internal/doc/linking.go), and the same_as and
    resolves_to edges (backend/internal/doc/topology.go). */
module Topology {
  import opened Linking
  import opened Ordering
  import opened SortedStrings

  const MAX_IP_ONLY_GROUP := 50

  datatype Connector = Connector(id: string, name: string, entities: seq<Entity>)

  /** An entity of another connector matched with a local one. */
  datatype Link = Link(entity: Entity, local: Entity, connectorID: string, reason: Reason)

  function EntityRef(e: Entity): string { if e.externalID != "" then e.externalID else e.name }

  function SameAsKey(id: string, kind: string, ref: string): string { id + "\0" + kind + "\0" + ref }

  function KeyOf(id: string, e: Entity): string { SameAsKey(id, e.kind, EntityRef(e)) }

  /** What one observation is known by when links are collected. */
  function Dedup(id: string, e: Entity): string {
    if e.externalID != "" then id + "|" + e.kind + "|" + e.externalID
    else id + "|" + e.kind + "|" + e.name + "|" + e.ip + "|" + e.hostname
  }

  /** The key of a pair: the other connector's observation, then the local one. */
  function DedupPair(otherID: string, other: Entity, id: string, mine: Entity): string {
    Dedup(otherID, other) + ">" + Dedup(id, mine)
  }

  /** All connectors with their latest snapshots: ids are distinct and hold no NUL,
      and from no connector's side do two pairs have one key. */
  ghost predicate World(world: seq<Connector>) {
    && DistinctIds(world)
    && (forall i :: 0 <= i < |world| ==> '\0' !in world[i].id && DistinctPairs(world, world[i]))
  }

  ghost predicate DistinctIds(world: seq<Connector>) {
    forall i, j :: 0 <= i < j < |world| ==> world[i].id != world[j].id
  }

  ghost predicate IsPair(world: seq<Connector>, x: Connector, ci: int, oi: int, mi: int) {
    0 <= ci < |world| && world[ci].id != x.id && 0 <= oi < |world[ci].entities| && 0 <= mi < |x.entities|
  }

  ghost predicate DistinctPairs(world: seq<Connector>, x: Connector) {
    forall ci, oi, mi, cj, oj, mj ::
      IsPair(world, x, ci, oi, mi) && IsPair(world, x, cj, oj, mj) && PairKey(world, x, ci, oi, mi) == PairKey(world, x, cj, oj, mj)
      ==> ci == cj && oi == oj && mi == mj
  }

  // --------------------------------------------------------------- collectLinks

  /** The link found when `other` of connector c meets `mine`, if they match. */
  ghost predicate LinkAt(fold: Fold, world: seq<Connector>, x: Connector, ci: int, oi: int, mi: int, l: Link) {
    && 0 <= ci < |world| && world[ci].id != x.id
    && 0 <= oi < |world[ci].entities| && 0 <= mi < |x.entities|
    && var other, mine := world[ci].entities[oi], x.entities[mi];
       && MatchReason(fold, mine, other) != NoMatch
       && l == Link(other, mine, world[ci].id, MatchReason(fold, mine, other))
  }

  /** Every matching pair, from the side of x. */
  ghost predicate IsLink(fold: Fold, world: seq<Connector>, x: Connector, l: Link) {
    exists ci, oi, mi :: LinkAt(fold, world, x, ci, oi, mi, l)
  }

  ghost function PairKey(world: seq<Connector>, x: Connector, ci: int, oi: int, mi: int): string
    requires 0 <= ci < |world| && 0 <= oi < |world[ci].entities| && 0 <= mi < |x.entities|
  {
    DedupPair(world[ci].id, world[ci].entities[oi], x.id, x.entities[mi])
  }

  ghost predicate Before(ci: int, oi: int, mi: int, c: int, o: int, m: int) {
    ci < c || (ci == c && (oi < o || (oi == o && mi < m)))
  }

  /** A matching pair with this dedup key. */
  ghost predicate Keyed(fold: Fold, world: seq<Connector>, x: Connector, ci: int, oi: int, mi: int, k: string) {
    && (exists l :: LinkAt(fold, world, x, ci, oi, mi, l))
    && PairKey(world, x, ci, oi, mi) == k
  }

  /** The dedup keys seen are those of the matching pairs met so far. */
  ghost predicate SeenUpTo(fold: Fold, world: seq<Connector>, x: Connector, seen: set<string>, c: nat, o: nat, m: nat) {
    forall k :: k in seen <==> exists ci, oi, mi :: Keyed(fold, world, x, ci, oi, mi, k) && Before(ci, oi, mi, c, o, m)
  }

  /** The link of the first matching pair with its dedup key. */
  ghost predicate FirstLink(fold: Fold, world: seq<Connector>, x: Connector, ci: int, oi: int, mi: int, l: Link) {
    && LinkAt(fold, world, x, ci, oi, mi, l)
    && forall cj, oj, mj :: Before(cj, oj, mj, ci, oi, mi) ==> !Keyed(fold, world, x, cj, oj, mj, PairKey(world, x, ci, oi, mi))
  }

  ghost predicate IsFirstLink(fold: Fold, world: seq<Connector>, x: Connector, l: Link) {
    exists ci, oi, mi :: FirstLink(fold, world, x, ci, oi, mi, l)
  }

  /** When no two pairs have one key, every matching pair is a first. */
  lemma AllLinksAreFirst(fold: Fold, world: seq<Connector>, x: Connector, l: Link)
    requires DistinctPairs(world, x)
    ensures IsFirstLink(fold, world, x, l) <==> IsLink(fold, world, x, l)
  {
    hide MatchReason, PairKey;
    if IsLink(fold, world, x, l) {
      var ci, oi, mi :| LinkAt(fold, world, x, ci, oi, mi, l);
      forall cj, oj, mj | Before(cj, oj, mj, ci, oi, mi)
        ensures !Keyed(fold, world, x, cj, oj, mj, PairKey(world, x, ci, oi, mi))
      {
        if Keyed(fold, world, x, cj, oj, mj, PairKey(world, x, ci, oi, mi)) {
          OnlyPair(fold, world, x, ci, oi, mi, cj, oj, mj);
          assert false;
        }
      }
      assert FirstLink(fold, world, x, ci, oi, mi, l);
    }
  }

  lemma OnlyPair(fold: Fold, world: seq<Connector>, x: Connector, ci: int, oi: int, mi: int, cj: int, oj: int, mj: int)
    requires DistinctPairs(world, x) && IsPair(world, x, ci, oi, mi)
    requires Keyed(fold, world, x, cj, oj, mj, PairKey(world, x, ci, oi, mi))
    ensures ci == cj && oi == oj && mi == mj
  {
    hide MatchReason, PairKey;
    assert IsPair(world, x, cj, oj, mj);
  }

  ghost predicate LinksUpTo(fold: Fold, world: seq<Connector>, x: Connector, links: seq<Link>, c: nat, o: nat, m: nat) {
    forall l :: l in links <==> exists ci, oi, mi :: FirstLink(fold, world, x, ci, oi, mi, l) && Before(ci, oi, mi, c, o, m)
  }

  lemma LinksNext(fold: Fold, world: seq<Connector>, x: Connector, links: seq<Link>, more: seq<Link>, c: nat, o: nat, m: nat)
    requires LinksUpTo(fold, world, x, links, c, o, m)
    requires forall l :: l in more <==> l in links || FirstLink(fold, world, x, c, o, m, l)
    ensures LinksUpTo(fold, world, x, more, c, o, m + 1)
  {
    hide FirstLink;
    forall l ensures l in more <==> exists ci, oi, mi :: FirstLink(fold, world, x, ci, oi, mi, l) && Before(ci, oi, mi, c, o, m + 1) {
      if FirstLink(fold, world, x, c, o, m, l) {
        assert Before(c, o, m, c, o, m + 1);
      }
      if l in links {
        var ci, oi, mi :| FirstLink(fold, world, x, ci, oi, mi, l) && Before(ci, oi, mi, c, o, m);
        assert Before(ci, oi, mi, c, o, m + 1);
      }
      if ci, oi, mi :| FirstLink(fold, world, x, ci, oi, mi, l) && Before(ci, oi, mi, c, o, m + 1) {
        assert Before(ci, oi, mi, c, o, m) || (ci == c && oi == o && mi == m);
      }
    }
  }

  lemma SeenNext(fold: Fold, world: seq<Connector>, x: Connector, seen: set<string>, more: set<string>, c: nat, o: nat, m: nat)
    requires SeenUpTo(fold, world, x, seen, c, o, m)
    requires forall k :: k in more <==> k in seen || Keyed(fold, world, x, c, o, m, k)
    ensures SeenUpTo(fold, world, x, more, c, o, m + 1)
  {
    hide Keyed;
    forall k ensures k in more <==> exists ci, oi, mi :: Keyed(fold, world, x, ci, oi, mi, k) && Before(ci, oi, mi, c, o, m + 1) {
      if Keyed(fold, world, x, c, o, m, k) {
        assert Before(c, o, m, c, o, m + 1);
      }
      if k in seen {
        var ci, oi, mi :| Keyed(fold, world, x, ci, oi, mi, k) && Before(ci, oi, mi, c, o, m);
        assert Before(ci, oi, mi, c, o, m + 1);
      }
      if ci, oi, mi :| Keyed(fold, world, x, ci, oi, mi, k) && Before(ci, oi, mi, c, o, m + 1) {
        assert Before(ci, oi, mi, c, o, m) || (ci == c && oi == o && mi == m);
      }
    }
  }

  /** No pair lies between two positions of the scan. */
  ghost predicate NoneBetween(world: seq<Connector>, x: Connector, c: nat, o: nat, m: nat, c': nat, o': nat, m': nat) {
    forall ci, oi, mi :: 0 <= ci < |world| && world[ci].id != x.id && 0 <= oi < |world[ci].entities| && 0 <= mi < |x.entities|
      ==> (Before(ci, oi, mi, c, o, m) <==> Before(ci, oi, mi, c', o', m'))
  }

  lemma LinksSkip(fold: Fold, world: seq<Connector>, x: Connector, links: seq<Link>, c: nat, o: nat, m: nat, c': nat, o': nat, m': nat)
    requires LinksUpTo(fold, world, x, links, c, o, m) && NoneBetween(world, x, c, o, m, c', o', m')
    ensures LinksUpTo(fold, world, x, links, c', o', m')
  {
    hide MatchReason, Before, Keyed;
    forall l ensures l in links <==> exists ci, oi, mi :: FirstLink(fold, world, x, ci, oi, mi, l) && Before(ci, oi, mi, c', o', m') {
      if l in links {
        var ci, oi, mi :| FirstLink(fold, world, x, ci, oi, mi, l) && Before(ci, oi, mi, c, o, m);
        assert Before(ci, oi, mi, c', o', m');
      }
      if ci, oi, mi :| FirstLink(fold, world, x, ci, oi, mi, l) && Before(ci, oi, mi, c', o', m') {
        assert Before(ci, oi, mi, c, o, m);
      }
    }
  }

  lemma SeenSkip(fold: Fold, world: seq<Connector>, x: Connector, seen: set<string>, c: nat, o: nat, m: nat, c': nat, o': nat, m': nat)
    requires SeenUpTo(fold, world, x, seen, c, o, m) && NoneBetween(world, x, c, o, m, c', o', m')
    ensures SeenUpTo(fold, world, x, seen, c', o', m')
  {
    hide MatchReason, Before, PairKey;
    forall k ensures k in seen <==> exists ci, oi, mi :: Keyed(fold, world, x, ci, oi, mi, k) && Before(ci, oi, mi, c', o', m') {
      if k in seen {
        var ci, oi, mi :| Keyed(fold, world, x, ci, oi, mi, k) && Before(ci, oi, mi, c, o, m);
        assert Before(ci, oi, mi, c', o', m');
      }
      if ci, oi, mi :| Keyed(fold, world, x, ci, oi, mi, k) && Before(ci, oi, mi, c', o', m') {
        assert Before(ci, oi, mi, c, o, m);
      }
    }
  }

  /** A matching pair is a first exactly when its key has not been seen. */
  lemma FirstIffUnseen(fold: Fold, world: seq<Connector>, x: Connector, seen: set<string>, c: nat, o: nat, m: nat, l: Link)
    requires SeenUpTo(fold, world, x, seen, c, o, m)
    requires c < |world| && o < |world[c].entities| && m < |x.entities|
    ensures FirstLink(fold, world, x, c, o, m, l) <==> LinkAt(fold, world, x, c, o, m, l) && PairKey(world, x, c, o, m) !in seen
  {
    hide LinkAt, PairKey, Keyed, Before;
  }

  /** One matching pair: its key is seen from then on, its link only if it was not. */
  lemma PairStep(fold: Fold, world: seq<Connector>, x: Connector, links: seq<Link>, seen: set<string>, c: nat, o: nat, m: nat)
    requires c < |world| && world[c].id != x.id && o < |world[c].entities| && m < |x.entities|
    requires LinksUpTo(fold, world, x, links, c, o, m) && SeenUpTo(fold, world, x, seen, c, o, m)
    ensures var other, mine, key := world[c].entities[o], x.entities[m], PairKey(world, x, c, o, m);
      var reason := MatchReason(fold, mine, other);
      var l := Link(other, mine, world[c].id, reason);
      && (reason == NoMatch ==> LinksUpTo(fold, world, x, links, c, o, m + 1) && SeenUpTo(fold, world, x, seen, c, o, m + 1))
      && (reason != NoMatch ==> SeenUpTo(fold, world, x, seen + {key}, c, o, m + 1))
      && (reason != NoMatch && key in seen ==> LinksUpTo(fold, world, x, links, c, o, m + 1))
      && (reason != NoMatch && key !in seen ==> LinksUpTo(fold, world, x, links + [l], c, o, m + 1))
  {
    hide LinksUpTo, SeenUpTo, MatchReason, PairKey, FirstLink;
    var other, mine, key := world[c].entities[o], x.entities[m], PairKey(world, x, c, o, m);
    var reason := MatchReason(fold, mine, other);
    var link := Link(other, mine, world[c].id, reason);
    forall l ensures FirstLink(fold, world, x, c, o, m, l) <==> reason != NoMatch && l == link && key !in seen {
      FirstIffUnseen(fold, world, x, seen, c, o, m, l);
    }
    forall k ensures Keyed(fold, world, x, c, o, m, k) <==> reason != NoMatch && k == key {
      assert LinkAt(fold, world, x, c, o, m, link) <==> reason != NoMatch;
    }
    LinksNext(fold, world, x, links, if reason != NoMatch && key !in seen then links + [link] else links, c, o, m);
    SeenNext(fold, world, x, seen, if reason != NoMatch then seen + {key} else seen, c, o, m);
  }

  /** The pairs of one entity of connector c with every local entity. */
  method LinksOfEntity(fold: Fold, world: seq<Connector>, x: Connector, c: nat, o: nat, links0: seq<Link>, seen0: set<string>)
    returns (links: seq<Link>, seen: set<string>)
    requires c < |world| && world[c].id != x.id && o < |world[c].entities|
    requires LinksUpTo(fold, world, x, links0, c, o, 0) && SeenUpTo(fold, world, x, seen0, c, o, 0)
    ensures LinksUpTo(fold, world, x, links, c, o + 1, 0) && SeenUpTo(fold, world, x, seen, c, o + 1, 0)
  {
    hide LinksUpTo, SeenUpTo, MatchReason;
    links, seen := links0, seen0;
    var other := world[c].entities[o];
    for m := 0 to |x.entities|
      invariant LinksUpTo(fold, world, x, links, c, o, m) && SeenUpTo(fold, world, x, seen, c, o, m)
    {
      var mine := x.entities[m];
      var reason := MatchReason(fold, mine, other);
      PairStep(fold, world, x, links, seen, c, o, m);
      if reason != NoMatch {
        var key := DedupPair(world[c].id, other, x.id, mine);
        if key in seen {
          assert seen + {key} == seen;
          continue;
        }
        seen := seen + {key};
        links := links + [Link(other, mine, world[c].id, reason)];
      }
    }
    SeenSkip(fold, world, x, seen, c, o, |x.entities|, c, o + 1, 0);
    LinksSkip(fold, world, x, links, c, o, |x.entities|, c, o + 1, 0);
  }

  /** One link for each dedup key of a matching pair, by the first pair that has it. */
  method CollectLinks(fold: Fold, world: seq<Connector>, x: Connector) returns (links: seq<Link>)
    ensures forall l :: l in links <==> IsFirstLink(fold, world, x, l)
  {
    hide LinksUpTo, SeenUpTo;
    links := [];
    var seen: set<string> := {};
    NoLinks(fold, world, x);
    for c := 0 to |world|
      invariant LinksUpTo(fold, world, x, links, c, 0, 0) && SeenUpTo(fold, world, x, seen, c, 0, 0)
    {
      if world[c].id != x.id {
        for o := 0 to |world[c].entities|
          invariant LinksUpTo(fold, world, x, links, c, o, 0) && SeenUpTo(fold, world, x, seen, c, o, 0)
        {
          links, seen := LinksOfEntity(fold, world, x, c, o, links, seen);
        }
        SeenSkip(fold, world, x, seen, c, |world[c].entities|, 0, c + 1, 0, 0);
        LinksSkip(fold, world, x, links, c, |world[c].entities|, 0, c + 1, 0, 0);
      } else {
        SeenSkip(fold, world, x, seen, c, 0, 0, c + 1, 0, 0);
        LinksSkip(fold, world, x, links, c, 0, 0, c + 1, 0, 0);
      }
    }
    LinksDone(fold, world, x, links);
  }

  lemma NoLinks(fold: Fold, world: seq<Connector>, x: Connector)
    ensures LinksUpTo(fold, world, x, [], 0, 0, 0) && SeenUpTo(fold, world, x, {}, 0, 0, 0)
  {
    hide MatchReason, PairKey;
  }

  lemma LinksDone(fold: Fold, world: seq<Connector>, x: Connector, links: seq<Link>)
    requires LinksUpTo(fold, world, x, links, |world|, 0, 0)
    ensures forall l :: l in links <==> IsFirstLink(fold, world, x, l)
  {
    hide MatchReason, Keyed;
    forall l ensures l in links <==> IsFirstLink(fold, world, x, l) {
      if ci, oi, mi :| FirstLink(fold, world, x, ci, oi, mi, l) {
        assert Before(ci, oi, mi, |world|, 0, 0);
      }
    }
  }

  // ------------------------------------------------------- entities that share an IP

  function GroupAt(groups: map<string, seq<string>>, ip: string): seq<string> {
    if ip in groups then groups[ip] else []
  }

  /** The keys of a connector's entities at one address. */
  function IpKeys(id: string, entities: seq<Entity>, ip: string): multiset<string> {
    if entities == [] then multiset{}
    else
      var n := |entities| - 1;
      IpKeys(id, entities[..n], ip)
      + (if ip != "" && entities[n].ip == ip then multiset{KeyOf(id, entities[n])} else multiset{})
  }

  function WorldKeys(world: seq<Connector>, ip: string): multiset<string> {
    if world == [] then multiset{}
    else
      var n := |world| - 1;
      WorldKeys(world[..n], ip) + IpKeys(world[n].id, world[n].entities, ip)
  }

  function OthersKeys(world: seq<Connector>, x: string, ip: string): multiset<string> {
    if world == [] then multiset{}
    else
      var n := |world| - 1;
      OthersKeys(world[..n], x, ip)
      + (if world[n].id == x then multiset{} else IpKeys(world[n].id, world[n].entities, ip))
  }

  lemma NoIpKeys(id: string)
    ensures forall ip :: IpKeys(id, [], ip) == multiset{}
  {
  }

  lemma IpKeysSnoc(id: string, entities: seq<Entity>, k: nat, ip: string)
    requires k < |entities|
    ensures IpKeys(id, entities[..k + 1], ip) == IpKeys(id, entities[..k], ip)
            + (if ip != "" && entities[k].ip == ip then multiset{KeyOf(id, entities[k])} else multiset{})
  {
    assert entities[..k + 1][..k] == entities[..k];
  }

  lemma GroupUpdate(groups: map<string, seq<string>>, at: string, key: string, ip: string)
    ensures GroupAt(groups[at := GroupAt(groups, at) + [key]], ip)
            == if ip == at then GroupAt(groups, at) + [key] else GroupAt(groups, ip)
  {
  }

  lemma AddOne(s: seq<string>, x: string)
    ensures multiset(s + [x]) == multiset(s) + multiset{x}
  {
  }

  method AddToGroups(groups0: map<string, seq<string>>, id: string, entities: seq<Entity>) returns (groups: map<string, seq<string>>)
    ensures forall ip :: multiset(GroupAt(groups, ip)) == multiset(GroupAt(groups0, ip)) + IpKeys(id, entities, ip)
  {
    hide GroupAt, IpKeys, KeyOf;
    groups := groups0;
    NoIpKeys(id);
    assert entities[..0] == [];
    for k := 0 to |entities|
      invariant forall ip :: multiset(GroupAt(groups, ip)) == multiset(GroupAt(groups0, ip)) + IpKeys(id, entities[..k], ip)
    {
      var e := entities[k];
      ghost var before := groups;
      if e.ip != "" {
        groups := groups[e.ip := GroupAt(groups, e.ip) + [KeyOf(id, e)]];
      }
      forall ip ensures multiset(GroupAt(groups, ip)) == multiset(GroupAt(groups0, ip)) + IpKeys(id, entities[..k + 1], ip) {
        IpKeysSnoc(id, entities, k, ip);
        GroupUpdate(before, e.ip, KeyOf(id, e), ip);
        AddOne(GroupAt(before, ip), KeyOf(id, e));
      }
    }
    assert entities[..|entities|] == entities;
  }

  /** ipGroups as one side builds it: its own entities first, then everyone else's. */
  method BuildIpGroups(world: seq<Connector>, x: Connector) returns (groups: map<string, seq<string>>)
    ensures forall ip :: multiset(GroupAt(groups, ip)) == IpKeys(x.id, x.entities, ip) + OthersKeys(world, x.id, ip)
  {
    hide IpKeys;
    groups := AddToGroups(map[], x.id, x.entities);
    for c := 0 to |world|
      invariant forall ip :: multiset(GroupAt(groups, ip)) == IpKeys(x.id, x.entities, ip) + OthersKeys(world[..c], x.id, ip)
    {
      assert world[..c + 1][..c] == world[..c];
      if world[c].id != x.id {
        groups := AddToGroups(groups, world[c].id, world[c].entities);
      }
    }
    assert world[..|world|] == world;
  }

  lemma {:induction false} OthersOfAbsent(world: seq<Connector>, x: string, ip: string)
    requires forall i :: 0 <= i < |world| ==> world[i].id != x
    ensures OthersKeys(world, x, ip) == WorldKeys(world, ip)
  {
    if world != [] {
      OthersOfAbsent(world[..|world| - 1], x, ip);
    }
  }

  /** One side's view of an address is the same whichever connector is rebuilt. */
  lemma {:induction false} GroupIsSymmetric(world: seq<Connector>, i: nat, ip: string)
    requires i < |world| && forall a, b :: 0 <= a < b < |world| ==> world[a].id != world[b].id
    ensures IpKeys(world[i].id, world[i].entities, ip) + OthersKeys(world, world[i].id, ip) == WorldKeys(world, ip)
  {
    hide IpKeys;
    var n := |world| - 1;
    if i == n {
      OthersOfAbsent(world[..n], world[n].id, ip);
    } else {
      GroupIsSymmetric(world[..n], i, ip);
    }
  }

  // ------------------------------------------------------------------------ the cap

  /** The entities an over-full address keeps: the first ones in key order. */
  function Allowed(keys: seq<string>): set<string>
    requires |keys| > MAX_IP_ONLY_GROUP
  {
    SortSorts(keys);
    assert |multiset(keys)| == |keys| && |multiset(Sort(keys))| == |Sort(keys)|;
    set k | k in Sort(keys)[..MAX_IP_ONLY_GROUP]
  }

  predicate Kept(fold: Fold, id: string, groups: map<string, seq<string>>, l: Link) {
    l.reason == IpAddress && StrongMatchReason(fold, l.local, l.entity) == NoMatch
    && |GroupAt(groups, l.local.ip)| > MAX_IP_ONLY_GROUP
    ==>
      var allowed := Allowed(GroupAt(groups, l.local.ip));
      KeyOf(id, l.local) in allowed && KeyOf(l.connectorID, l.entity) in allowed
  }

  /** The allowed map: the first fifty keys of every over-full address. */
  method AllowedByIp(groups: map<string, seq<string>>) returns (allowed: map<string, set<string>>)
    ensures forall ip :: ip in allowed <==> ip in groups && |groups[ip]| > MAX_IP_ONLY_GROUP
    ensures forall ip :: ip in allowed ==> allowed[ip] == Allowed(groups[ip])
  {
    hide Allowed;
    allowed := map[];
    var todo := groups.Keys;
    while todo != {}
      invariant todo <= groups.Keys
      invariant forall ip :: ip in allowed <==> ip in groups && ip !in todo && |groups[ip]| > MAX_IP_ONLY_GROUP
      invariant forall ip :: ip in allowed ==> allowed[ip] == Allowed(groups[ip])
    {
      var ip :| ip in todo;
      todo := todo - {ip};
      if |groups[ip]| <= MAX_IP_ONLY_GROUP {
        continue;
      }
      var firstKeys := FirstKeys(groups[ip]);
      allowed := allowed[ip := firstKeys];
    }
  }

  /** Sorts the keys and takes the first fifty, as a set. */
  method FirstKeys(keys: seq<string>) returns (firstKeys: set<string>)
    requires |keys| > MAX_IP_ONLY_GROUP
    ensures firstKeys == Allowed(keys)
  {
    SortSorts(keys);
    assert |multiset(keys)| == |keys| && |multiset(Sort(keys))| == |Sort(keys)|;
    var sorted := Sort(keys);
    firstKeys := {};
    for k := 0 to MAX_IP_ONLY_GROUP
      invariant firstKeys == set x | x in sorted[..k]
    {
      assert sorted[..k + 1] == sorted[..k] + [sorted[k]];
      firstKeys := firstKeys + {sorted[k]};
    }
  }

  /** The links that stay, in their order. */
  function KeptLinks(fold: Fold, id: string, groups: map<string, seq<string>>, links: seq<Link>): seq<Link> {
    if links == [] then []
    else
      var n := |links| - 1;
      KeptLinks(fold, id, groups, links[..n]) + if Kept(fold, id, groups, links[n]) then [links[n]] else []
  }

  lemma {:induction false} KeptLinksMember(fold: Fold, id: string, groups: map<string, seq<string>>, links: seq<Link>, l: Link)
    ensures l in KeptLinks(fold, id, groups, links) <==> l in links && Kept(fold, id, groups, l)
  {
    hide Kept;
    if links != [] {
      KeptLinksMember(fold, id, groups, links[..|links| - 1], l);
      assert links == links[..|links| - 1] + [links[|links| - 1]];
    }
  }

  method CapIpOnlyLinks(fold: Fold, links: seq<Link>, id: string, groups: map<string, seq<string>>) returns (out: seq<Link>)
    ensures out == KeptLinks(fold, id, groups, links)
  {
    hide Allowed, StrongMatchReason, KeyOf;
    var allowed := AllowedByIp(groups);
    if allowed == map[] {
      NothingCapped(fold, id, groups, links);
      return links;
    }
    out := [];
    for k := 0 to |links|
      invariant out == KeptLinks(fold, id, groups, links[..k])
    {
      assert links[..k + 1][..k] == links[..k];
      var l := links[k];
      if l.reason == IpAddress && StrongMatchReason(fold, l.local, l.entity) == NoMatch {
        var over := l.local.ip in allowed;
        var localIn := over && KeyOf(id, l.local) in allowed[l.local.ip];
        var otherIn := over && KeyOf(l.connectorID, l.entity) in allowed[l.local.ip];
        if over && (!localIn || !otherIn) {
          continue;
        }
      }
      out := out + [l];
    }
    assert links[..|links|] == links;
  }

  lemma {:induction false} NothingCapped(fold: Fold, id: string, groups: map<string, seq<string>>, links: seq<Link>)
    requires forall ip :: ip in groups ==> |groups[ip]| <= MAX_IP_ONLY_GROUP
    ensures KeptLinks(fold, id, groups, links) == links
  {
    if links != [] {
      NothingCapped(fold, id, groups, links[..|links| - 1]);
      assert Kept(fold, id, groups, links[|links| - 1]);
    }
  }

  /** A link that survives the cap, stated without naming a side's own group list. */
  ghost predicate Survives(fold: Fold, world: seq<Connector>, id: string, l: Link) {
    l.reason == IpAddress && StrongMatchReason(fold, l.local, l.entity) == NoMatch
    && |WorldKeys(world, l.local.ip)| > MAX_IP_ONLY_GROUP
    ==> forall keys :: multiset(keys) == WorldKeys(world, l.local.ip) && |keys| > MAX_IP_ONLY_GROUP
                       ==> KeyOf(id, l.local) in Allowed(keys) && KeyOf(l.connectorID, l.entity) in Allowed(keys)
  }

  lemma AllowedOfPermutation(a: seq<string>, b: seq<string>)
    requires multiset(a) == multiset(b) && |a| > MAX_IP_ONLY_GROUP && |b| > MAX_IP_ONLY_GROUP
    ensures Allowed(a) == Allowed(b)
  {
    SortOfPermutation(a, b);
  }

  lemma KeptIsSurvives(fold: Fold, world: seq<Connector>, id: string, groups: map<string, seq<string>>, l: Link)
    requires multiset(GroupAt(groups, l.local.ip)) == WorldKeys(world, l.local.ip)
    ensures Kept(fold, id, groups, l) <==> Survives(fold, world, id, l)
  {
    hide Allowed, KeyOf, StrongMatchReason, WorldKeys, GroupAt;
    var g := GroupAt(groups, l.local.ip);
    assert |multiset(g)| == |g|;
    if |g| > MAX_IP_ONLY_GROUP {
      forall keys | multiset(keys) == WorldKeys(world, l.local.ip) && |keys| > MAX_IP_ONLY_GROUP
        ensures Allowed(keys) == Allowed(g)
      {
        AllowedOfPermutation(keys, g);
      }
    }
  }

  // ------------------------------------------------------------------ same_as edges

  datatype Node = Node(connectorID: string, kind: string, name: string, ref: string)

  datatype EdgeKind = SameAs | ResolvesTo

  /** An edge with its owner ("" stands for the connector being rebuilt). */
  datatype Edge = Edge(owner: string, src: Node, dst: Node, kind: EdgeKind, source: Reason)

  function NodeOf(id: string, e: Entity): Node { Node(id, e.kind, e.name, EntityRef(e)) }

  function NodeKey(n: Node): string { SameAsKey(n.connectorID, n.kind, n.ref) }

  /** same_as is stored in one canonical direction. */
  function SameAsEdge(id: string, l: Link): Edge {
    var src, dst := NodeOf(id, l.local), NodeOf(l.connectorID, l.entity);
    if Less(NodeKey(dst), NodeKey(src)) then Edge("", dst, src, SameAs, l.reason)
    else Edge("", src, dst, SameAs, l.reason)
  }

  /** Accumulates de-duplicated edges. */
  class EdgeBuilder {
    var edges: seq<Edge>
    var seen: set<Edge>

    ghost predicate Valid()
      reads this
    {
      && (forall e :: e in seen <==> e in edges)
      && (forall i, j :: 0 <= i < j < |edges| ==> edges[i] != edges[j])
    }

    constructor ()
      ensures Valid() && edges == []
    {
      edges, seen := [], {};
    }

    method Add(e: Edge)
      requires Valid()
      modifies this
      ensures Valid()
      ensures edges == if e in old(edges) then old(edges) else old(edges) + [e]
      ensures forall x :: x in edges <==> x in old(edges) || x == e
    {
      if e in seen {
        return;
      }
      seen := seen + {e};
      edges := edges + [e];
    }
  }

  /** An edge of the rebuild of x that comes from a link to connector y. */
  ghost predicate SameAsFrom(fold: Fold, world: seq<Connector>, x: Connector, y: string, e: Edge) {
    exists l :: IsLink(fold, world, x, l) && Survives(fold, world, x.id, l) && l.connectorID == y && e == SameAsEdge(x.id, l)
  }

  ghost predicate SameAsOf(fold: Fold, world: seq<Connector>, x: Connector, e: Edge) {
    exists l :: IsLink(fold, world, x, l) && Survives(fold, world, x.id, l) && e == SameAsEdge(x.id, l)
  }

  /** The edge of a link that was collected and survived the cap. */
  ghost predicate Collected(fold: Fold, world: seq<Connector>, x: Connector, e: Edge) {
    exists l :: IsFirstLink(fold, world, x, l) && Survives(fold, world, x.id, l) && e == SameAsEdge(x.id, l)
  }

  /** The same_as part of RebuildTopologyForConnector. */
  method AddSameAsEdges(fold: Fold, world: seq<Connector>, i: nat, b: EdgeBuilder)
    requires DistinctIds(world) && i < |world| && b.Valid()
    modifies b
    ensures b.Valid()
    ensures forall e :: e in b.edges <==> e in old(b.edges) || Collected(fold, world, world[i], e)
  {
    hide IsFirstLink, Survives, Kept, SameAsEdge, KeptLinks;
    var x := world[i];
    var all := CollectLinks(fold, world, x);
    var groups := BuildIpGroups(world, x);
    var links := CapIpOnlyLinks(fold, all, x.id, groups);
    forall l ensures l in links <==> IsFirstLink(fold, world, x, l) && Survives(fold, world, x.id, l) {
      KeptLinksMember(fold, x.id, groups, all, l);
      GroupIsSymmetric(world, i, l.local.ip);
      KeptIsSurvives(fold, world, x.id, groups, l);
    }
    for k := 0 to |links|
      invariant b.Valid()
      invariant forall e :: e in b.edges <==> e in old(b.edges) || exists j :: 0 <= j < k && e == SameAsEdge(x.id, links[j])
    {
      b.Add(SameAsEdge(x.id, links[k]));
    }
    forall e ensures (exists j :: 0 <= j < |links| && e == SameAsEdge(x.id, links[j])) <==> Collected(fold, world, x, e) {
      if j :| 0 <= j < |links| && e == SameAsEdge(x.id, links[j]) {
        assert links[j] in links;
      }
      if Collected(fold, world, x, e) {
        var l :| IsFirstLink(fold, world, x, l) && Survives(fold, world, x.id, l) && e == SameAsEdge(x.id, l);
        assert l in links;
        var j :| 0 <= j < |links| && links[j] == l;
      }
    }
  }

  /** When no two pairs have one key, that is the edge of any match within the cap. */
  lemma AllAreCollected(fold: Fold, world: seq<Connector>, x: Connector, e: Edge)
    requires DistinctPairs(world, x)
    ensures Collected(fold, world, x, e) <==> SameAsOf(fold, world, x, e)
  {
    hide IsLink, IsFirstLink, Survives, SameAsEdge, DistinctPairs;
    if l :| IsFirstLink(fold, world, x, l) && Survives(fold, world, x.id, l) && e == SameAsEdge(x.id, l) {
      AllLinksAreFirst(fold, world, x, l);
    }
    if l :| IsLink(fold, world, x, l) && Survives(fold, world, x.id, l) && e == SameAsEdge(x.id, l) {
      AllLinksAreFirst(fold, world, x, l);
    }
  }

  // ------------------------------------------------------- either side, same edges

  /** The link of y's rebuild that mirrors a link of x's. */
  function Mirror(x: string, l: Link): Link { Link(l.local, l.entity, x, l.reason) }

  lemma MirrorIsLink(fold: Fold, world: seq<Connector>, i: nat, j: nat, l: Link)
    requires World(world) && i < |world| && j < |world|
    requires IsLink(fold, world, world[i], l) && l.connectorID == world[j].id
    ensures IsLink(fold, world, world[j], Mirror(world[i].id, l))
  {
    hide MatchReason, DistinctPairs;
    var ci, oi, mi :| LinkAt(fold, world, world[i], ci, oi, mi, l);
    assert ci == j;
    MatchIsSymmetric(fold, l.local, l.entity);
    assert LinkAt(fold, world, world[j], i, mi, oi, Mirror(world[i].id, l));
  }

  lemma IpReasonSharesIp(fold: Fold, a: Entity, b: Entity)
    ensures MatchReason(fold, a, b) == IpAddress ==> a.ip == b.ip
  {
    hide HostnameMatches;
  }

  lemma MirrorSurvives(fold: Fold, world: seq<Connector>, x: Connector, l: Link)
    requires IsLink(fold, world, x, l)
    ensures Survives(fold, world, x.id, l) <==> Survives(fold, world, l.connectorID, Mirror(x.id, l))
  {
    hide Allowed, KeyOf, StrongMatchReason, WorldKeys, MatchReason;
    MatchIsSymmetric(fold, l.local, l.entity);
    IpReasonSharesIp(fold, l.local, l.entity);
    var ci, oi, mi :| LinkAt(fold, world, x, ci, oi, mi, l);
  }

  lemma KeysOfTwoConnectors(a: Node, b: Node)
    requires '\0' !in a.connectorID && '\0' !in b.connectorID && a.connectorID != b.connectorID
    ensures NodeKey(a) != NodeKey(b)
  {
    if NodeKey(a) == NodeKey(b) {
      assert NodeKey(a) == a.connectorID + "\0" + (a.kind + "\0" + a.ref);
      assert NodeKey(b) == b.connectorID + "\0" + (b.kind + "\0" + b.ref);
      SplitAtNul(a.connectorID, a.kind + "\0" + a.ref, b.connectorID, b.kind + "\0" + b.ref);
      assert false;
    }
  }

  lemma MirrorSameEdge(x: string, l: Link)
    requires '\0' !in x && '\0' !in l.connectorID && x != l.connectorID
    ensures SameAsEdge(x, l) == SameAsEdge(l.connectorID, Mirror(x, l))
  {
    hide NodeKey, Less;
    var a, b := NodeOf(x, l.local), NodeOf(l.connectorID, l.entity);
    KeysOfTwoConnectors(a, b);
    LessTotal(NodeKey(a), NodeKey(b));
  }

  lemma SameAsMirrored(fold: Fold, world: seq<Connector>, i: nat, j: nat, e: Edge)
    requires World(world) && i < |world| && j < |world| && i != j
    requires SameAsFrom(fold, world, world[i], world[j].id, e)
    ensures SameAsFrom(fold, world, world[j], world[i].id, e)
  {
    hide IsLink, Survives, SameAsEdge, DistinctPairs;
    var l :| IsLink(fold, world, world[i], l) && Survives(fold, world, world[i].id, l)
             && l.connectorID == world[j].id && e == SameAsEdge(world[i].id, l);
    MirrorIsLink(fold, world, i, j, l);
    MirrorSurvives(fold, world, world[i], l);
    assert world[i].id != world[j].id;
    MirrorSameEdge(world[i].id, l);
  }

  /** The same_as edges between two connectors, after the cap and in canonical
      direction, are the same set whichever of the two is rebuilt. */
  lemma SameAsIndependentOfSide(fold: Fold, world: seq<Connector>, i: nat, j: nat, e: Edge)
    requires World(world) && i < |world| && j < |world| && i != j
    ensures SameAsFrom(fold, world, world[i], world[j].id, e) <==> SameAsFrom(fold, world, world[j], world[i].id, e)
  {
    hide SameAsFrom;
    if SameAsFrom(fold, world, world[i], world[j].id, e) { SameAsMirrored(fold, world, i, j, e); }
    if SameAsFrom(fold, world, world[j], world[i].id, e) { SameAsMirrored(fold, world, j, i, e); }
  }

  lemma EndpointsOfSameAs(x: string, l: Link)
    ensures {SameAsEdge(x, l).src.connectorID, SameAsEdge(x, l).dst.connectorID} == {x, l.connectorID}
  {
    hide Less, NodeKey;
  }

  /** So the edges with one end in each of two connectors that the rebuild of one
      adds are exactly those the rebuild of the other adds. */
  lemma SameAsEdgesIndependentOfSide(fold: Fold, world: seq<Connector>, i: nat, j: nat, e: Edge)
    requires World(world) && i < |world| && j < |world| && i != j
    requires {e.src.connectorID, e.dst.connectorID} == {world[i].id, world[j].id}
    ensures SameAsOf(fold, world, world[i], e) <==> SameAsOf(fold, world, world[j], e)
  {
    hide IsLink, Survives, SameAsEdge, DistinctPairs;
    SameAsOfIsFrom(fold, world, i, j, e);
    SameAsOfIsFrom(fold, world, j, i, e);
    SameAsIndependentOfSide(fold, world, i, j, e);
  }

  lemma SameAsOfIsFrom(fold: Fold, world: seq<Connector>, i: nat, j: nat, e: Edge)
    requires i < |world| && j < |world| && world[i].id != world[j].id
    requires {e.src.connectorID, e.dst.connectorID} == {world[i].id, world[j].id}
    ensures SameAsOf(fold, world, world[i], e) <==> SameAsFrom(fold, world, world[i], world[j].id, e)
  {
    hide IsLink, Survives, SameAsEdge;
    if l :| IsLink(fold, world, world[i], l) && Survives(fold, world, world[i].id, l) && e == SameAsEdge(world[i].id, l) {
      EndpointsOfSameAs(world[i].id, l);
      OtherEnd(world[i].id, world[j].id, l.connectorID);
    }
  }

  lemma OtherEnd(a: string, b: string, c: string)
    requires a != b && {a, b} == {a, c}
    ensures b == c
  {
    assert b in {a, c};
  }

  /** The cap never drops a strong match: any two strongly matching entities of two
      connectors are joined by an edge of either rebuild. */
  lemma StrongMatchesAreEdges(fold: Fold, world: seq<Connector>, i: nat, j: nat, m: nat, o: nat)
    requires World(world) && i < |world| && j < |world| && i != j
    requires m < |world[i].entities| && o < |world[j].entities|
    requires StrongMatchReason(fold, world[i].entities[m], world[j].entities[o]) != NoMatch
    ensures var mine, other := world[i].entities[m], world[j].entities[o];
      var e := SameAsEdge(world[i].id, Link(other, mine, world[j].id, MatchReason(fold, mine, other)));
      SameAsOf(fold, world, world[i], e) && SameAsOf(fold, world, world[j], e)
  {
    hide DistinctPairs, HostnameMatches, SameAsEdge;
    var mine, other := world[i].entities[m], world[j].entities[o];
    var l := Link(other, mine, world[j].id, MatchReason(fold, mine, other));
    assert LinkAt(fold, world, world[i], j, o, m, l);
    assert IsLink(fold, world, world[i], l) && Survives(fold, world, world[i].id, l);
    var e := SameAsEdge(world[i].id, l);
    EndpointsOfSameAs(world[i].id, l);
    SameAsEdgesIndependentOfSide(fold, world, i, j, e);
  }

  // --------------------------------------------------------------- resolves_to edges

  predicate IsDns(e: Entity) { e.kind == "dns_record" || e.kind == "dns_rewrite" }

  /** A DNS entity of one connector that matches a non-DNS entity of another. */
  ghost predicate ResolvesAt(fold: Fold, from: Connector, to: Connector, d: int, t: int, e: Edge) {
    && 0 <= d < |from.entities| && 0 <= t < |to.entities|
    && var dns, target := from.entities[d], to.entities[t];
       && IsDns(dns) && !IsDns(target) && MatchReason(fold, dns, target) != NoMatch
       && e == Edge(from.id, NodeOf(from.id, dns), NodeOf(to.id, target), ResolvesTo, MatchReason(fold, dns, target))
  }

  ghost predicate Resolves(fold: Fold, from: Connector, to: Connector, e: Edge) {
    exists d, t :: ResolvesAt(fold, from, to, d, t, e)
  }

  lemma ResolvesAtOne(fold: Fold, from: Connector, to: Connector, d: nat, t: nat, e: Edge)
    requires d < |from.entities| && t < |to.entities|
    ensures var dns, target := from.entities[d], to.entities[t];
            var reason := MatchReason(fold, dns, target);
            ResolvesAt(fold, from, to, d, t, e) <==>
              IsDns(dns) && !IsDns(target) && reason != NoMatch
              && e == Edge(from.id, NodeOf(from.id, dns), NodeOf(to.id, target), ResolvesTo, reason)
  {
    hide MatchReason, IsDns;
  }

  method AddResolvesOne(fold: Fold, b: EdgeBuilder, from: Connector, to: Connector, d: nat)
    requires b.Valid() && d < |from.entities| && IsDns(from.entities[d])
    modifies b
    ensures b.Valid()
    ensures forall e :: e in b.edges <==> e in old(b.edges) || (exists y :: ResolvesAt(fold, from, to, d, y, e))
  {
    hide MatchReason, IsDns, ResolvesAt, EdgeBuilder.Valid;
    var dns := from.entities[d];
    for t := 0 to |to.entities|
      invariant b.Valid()
      invariant forall e :: e in b.edges <==> e in old(b.edges) || (exists y :: 0 <= y < t && ResolvesAt(fold, from, to, d, y, e))
    {
      var target := to.entities[t];
      var reason := MatchReason(fold, dns, target);
      ghost var before := b.edges;
      if !IsDns(target) && reason != NoMatch {
        b.Add(Edge(from.id, NodeOf(from.id, dns), NodeOf(to.id, target), ResolvesTo, reason));
      }
      forall e ensures e in b.edges <==> e in before || ResolvesAt(fold, from, to, d, t, e) {
        ResolvesAtOne(fold, from, to, d, t, e);
      }
    }
    ResolvesAtBounds(fold, from, to);
  }

  lemma ResolvesAtBounds(fold: Fold, from: Connector, to: Connector)
    ensures forall d, t, e :: ResolvesAt(fold, from, to, d, t, e) ==> 0 <= d < |from.entities| && 0 <= t < |to.entities| && IsDns(from.entities[d])
  {
    hide MatchReason, IsDns;
  }

  /** The link closure over one pair of connectors; the owner is the DNS entity's connector. */
  method AddResolvesPair(fold: Fold, b: EdgeBuilder, from: Connector, to: Connector)
    requires b.Valid()
    modifies b
    ensures b.Valid()
    ensures forall e :: e in b.edges <==> e in old(b.edges) || Resolves(fold, from, to, e)
  {
    hide MatchReason, IsDns, ResolvesAt, EdgeBuilder.Valid;
    ResolvesAtBounds(fold, from, to);
    for d := 0 to |from.entities|
      invariant b.Valid()
      invariant forall e :: e in b.edges <==>
        e in old(b.edges) || (exists x, t :: 0 <= x < d && ResolvesAt(fold, from, to, x, t, e))
    {
      if IsDns(from.entities[d]) {
        AddResolvesOne(fold, b, from, to, d);
      }
    }
  }

  /** addResolvesToEdges: edges from x's DNS entities and edges into x's entities. */
  method AddResolvesToEdges(fold: Fold, b: EdgeBuilder, x: Connector, others: seq<Connector>)
    requires b.Valid()
    modifies b
    ensures b.Valid()
    ensures forall e :: e in b.edges <==> e in old(b.edges) || ResolvesAround(fold, x, others, |others|, |others|, e)
  {
    hide Resolves;
    for o := 0 to |others|
      invariant b.Valid()
      invariant forall e :: e in b.edges <==> e in old(b.edges) || ResolvesAround(fold, x, others, o, 0, e)
    {
      AddResolvesPair(fold, b, x, others[o]);
    }
    for o := 0 to |others|
      invariant b.Valid()
      invariant forall e :: e in b.edges <==> e in old(b.edges) || ResolvesAround(fold, x, others, |others|, o, e)
    {
      AddResolvesPair(fold, b, others[o], x);
    }
  }

  ghost predicate ResolvesAround(fold: Fold, x: Connector, others: seq<Connector>, n: nat, m: nat, e: Edge)
    requires n <= |others| && m <= |others|
  {
    || (exists o :: 0 <= o < n && Resolves(fold, x, others[o], e))
    || (exists o :: 0 <= o < m && Resolves(fold, others[o], x, e))
  }

  /** The resolves_to edges between x and y found by the rebuild of x. */
  ghost predicate ResolvesBetween(fold: Fold, x: Connector, y: Connector, e: Edge) {
    Resolves(fold, x, y, e) || Resolves(fold, y, x, e)
  }

  lemma EndpointsOf(fold: Fold, from: Connector, to: Connector, e: Edge)
    requires Resolves(fold, from, to, e)
    ensures e.owner == from.id && e.src.connectorID == from.id && e.dst.connectorID == to.id
  {
    hide MatchReason;
  }

  /** Rebuilding x derives, between x and any other connector y, exactly the edges
      that rebuilding y derives, each owned by the connector of its DNS entity. */
  lemma ResolvesIndependentOfSide(fold: Fold, x: Connector, y: Connector, othersOfX: seq<Connector>, othersOfY: seq<Connector>, e: Edge)
    requires x.id != y.id && y in othersOfX && x in othersOfY
    requires forall i :: 0 <= i < |othersOfX| && othersOfX[i].id == y.id ==> othersOfX[i] == y
    requires forall i :: 0 <= i < |othersOfY| && othersOfY[i].id == x.id ==> othersOfY[i] == x
    requires {e.src.connectorID, e.dst.connectorID} == {x.id, y.id}
    ensures ResolvesAround(fold, x, othersOfX, |othersOfX|, |othersOfX|, e)
            <==> ResolvesAround(fold, y, othersOfY, |othersOfY|, |othersOfY|, e)
  {
    hide Resolves;
    AroundIsBetween(fold, x, y, othersOfX, e);
    AroundIsBetween(fold, y, x, othersOfY, e);
  }

  lemma AroundIsBetween(fold: Fold, x: Connector, y: Connector, others: seq<Connector>, e: Edge)
    requires x.id != y.id && y in others
    requires forall i :: 0 <= i < |others| && others[i].id == y.id ==> others[i] == y
    requires {e.src.connectorID, e.dst.connectorID} == {x.id, y.id}
    ensures ResolvesAround(fold, x, others, |others|, |others|, e) <==> ResolvesBetween(fold, x, y, e)
  {
    hide Resolves;
    assert e.src.connectorID in {x.id, y.id} && e.dst.connectorID in {x.id, y.id};
    assert x.id in {e.src.connectorID, e.dst.connectorID} && y.id in {e.src.connectorID, e.dst.connectorID};
    if o :| 0 <= o < |others| && Resolves(fold, x, others[o], e) {
      EndpointsOf(fold, x, others[o], e);
    }
    if o :| 0 <= o < |others| && Resolves(fold, others[o], x, e) {
      EndpointsOf(fold, others[o], x, e);
    }
    var k :| 0 <= k < |others| && others[k] == y;
  }
}
