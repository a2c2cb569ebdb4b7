/** Which edges a rebuild stores, from the fields of the entities alone:
    backend/internal/doc/linking.go and backend/internal/doc/topology.go. */
module EdgeLaws {
  import opened Linking
  import opened Ordering
  import opened SortedStrings
  import opened Topology

  // --------------------------------------------------- the first fifty of a group

  /** How many entries of the list sort before k. */
  function CountLess(s: seq<string>, k: string): nat {
    if s == [] then 0 else (if Less(s[0], k) then 1 else 0) + CountLess(s[1..], k)
  }

  lemma {:induction false} CountLessInsert(x: string, s: seq<string>, k: string)
    ensures CountLess(Insert(x, s), k) == CountLess(s, k) + if Less(x, k) then 1 else 0
  {
    hide Less;
    var r := Insert(x, s);
    if r == [x] + s {
      assert r[1..] == s;
    } else {
      CountLessInsert(x, s[1..], k);
      assert r[1..] == Insert(x, s[1..]);
    }
  }

  lemma {:induction false} CountLessSort(s: seq<string>, k: string)
    ensures CountLess(Sort(s), k) == CountLess(s, k)
  {
    hide Less, Insert;
    if s != [] {
      CountLessSort(s[1..], k);
      CountLessInsert(s[0], Sort(s[1..]), k);
    }
  }

  lemma CountLessPermuted(a: seq<string>, b: seq<string>, k: string)
    requires multiset(a) == multiset(b)
    ensures CountLess(a, k) == CountLess(b, k)
  {
    CountLessSort(a, k);
    CountLessSort(b, k);
    SortOfPermutation(a, b);
  }

  lemma {:induction false} CountLessBound(s: seq<string>, k: string)
    ensures CountLess(s, k) <= |s|
  {
    if s != [] {
      CountLessBound(s[1..], k);
    }
  }

  /** In a sorted list the smaller entries are exactly the first ones. */
  lemma {:induction false} SmallerFirst(s: seq<string>, k: string)
    requires Sorted(s)
    ensures forall i :: 0 <= i < |s| ==> (Less(s[i], k) <==> i < CountLess(s, k))
  {
    hide Less;
    if s != [] {
      var rest := s[1..];
      assert Sorted(rest) by { SortedTail(s); }
      SmallerFirst(rest, k);
      forall i | 0 <= i < |s| ensures Less(s[i], k) <==> i < CountLess(s, k) {
        if i > 0 {
          assert s[i] == rest[i - 1];
          if Less(s[i], k) {
            SmallerStill(s[0], s[i], k);
          }
        }
        NoneSmaller(s, k);
      }
    }
  }

  lemma SortedTail(s: seq<string>)
    requires s != [] && Sorted(s)
    ensures Sorted(s[1..])
  {
    hide Less;
  }

  lemma SmallerStill(a: string, b: string, k: string)
    requires !Less(b, a) && Less(b, k)
    ensures Less(a, k)
  {
    LessTotal(a, b);
    LessTotal(a, k);
    if Less(a, b) {
      LessTransitive(a, b, k);
    }
  }

  /** If the first entry is not smaller, none is. */
  lemma NoneSmaller(s: seq<string>, k: string)
    requires s != [] && Sorted(s)
    requires forall i :: 0 <= i < |s| - 1 ==> (Less(s[1..][i], k) <==> i < CountLess(s[1..], k))
    ensures !Less(s[0], k) ==> CountLess(s, k) == 0
  {
    if !Less(s[0], k) && CountLess(s[1..], k) > 0 {
      CountLessBound(s[1..], k);
      assert Less(s[1..][0], k);
      SmallerStill(s[0], s[1], k);
    }
  }

  /** A key of an over-full group is kept exactly when fewer than fifty keys of the
      group sort before it. */
  lemma AllowedExactly(keys: seq<string>, k: string)
    requires |keys| > MAX_IP_ONLY_GROUP
    ensures k in Allowed(keys) <==> k in keys && CountLess(keys, k) < MAX_IP_ONLY_GROUP
  {
    hide Less, CountLess;
    SortSorts(keys);
    var t := Sort(keys);
    assert |multiset(keys)| == |keys| && |multiset(t)| == |t|;
    CountLessSort(keys, k);
    SmallerFirst(t, k);
    assert k in keys <==> k in t by { assert k in multiset(keys) <==> k in multiset(t); }
    var first := t[..MAX_IP_ONLY_GROUP];
    assert k in Allowed(keys) <==> k in first;
    if k in first {
      var i :| 0 <= i < MAX_IP_ONLY_GROUP && t[i] == k;
      LessTotal(k, k);
    }
    if k in t && CountLess(keys, k) < MAX_IP_ONLY_GROUP {
      var i :| 0 <= i < |t| && t[i] == k;
      FirstOccurrence(t, k, i);
      assert first[CountLess(t, k)] == k;
    }
  }

  lemma FirstOccurrence(t: seq<string>, k: string, i: nat)
    requires Sorted(t) && i < |t| && t[i] == k
    requires forall j :: 0 <= j < |t| ==> (Less(t[j], k) <==> j < CountLess(t, k))
    ensures CountLess(t, k) <= i && t[CountLess(t, k)] == k
  {
    hide Less;
    var c := CountLess(t, k);
    LessTotal(k, k);
    if c < i {
      LessTotal(t[c], k);
      assert !Less(t[i], t[c]);
    }
  }

  // --------------------------------------------------------- who is at an address

  /** The keys of all entities of the world at one address, connector by connector. */
  function HoldersIn(id: string, entities: seq<Entity>, ip: string): seq<string> {
    if entities == [] then []
    else
      var n := |entities| - 1;
      HoldersIn(id, entities[..n], ip) + if ip != "" && entities[n].ip == ip then [KeyOf(id, entities[n])] else []
  }

  function Holders(world: seq<Connector>, ip: string): seq<string> {
    if world == [] then []
    else var n := |world| - 1; Holders(world[..n], ip) + HoldersIn(world[n].id, world[n].entities, ip)
  }

  lemma {:induction false} HoldersInKeys(id: string, entities: seq<Entity>, ip: string)
    ensures multiset(HoldersIn(id, entities, ip)) == IpKeys(id, entities, ip)
  {
    hide KeyOf;
    if entities != [] {
      HoldersInKeys(id, entities[..|entities| - 1], ip);
    }
  }

  lemma {:induction false} HoldersAreKeys(world: seq<Connector>, ip: string)
    ensures multiset(Holders(world, ip)) == WorldKeys(world, ip)
  {
    hide IpKeys, HoldersIn;
    if world != [] {
      var n := |world| - 1;
      HoldersAreKeys(world[..n], ip);
      HoldersInKeys(world[n].id, world[n].entities, ip);
    }
  }

  lemma {:induction false} HoldsInOne(id: string, entities: seq<Entity>, m: nat)
    requires m < |entities| && entities[m].ip != ""
    ensures KeyOf(id, entities[m]) in HoldersIn(id, entities, entities[m].ip)
  {
    hide KeyOf;
    var n := |entities| - 1;
    if m < n {
      HoldsInOne(id, entities[..n], m);
    }
  }

  lemma {:induction false} HoldsIn(world: seq<Connector>, i: nat, m: nat)
    requires i < |world| && m < |world[i].entities| && world[i].entities[m].ip != ""
    ensures KeyOf(world[i].id, world[i].entities[m]) in Holders(world, world[i].entities[m].ip)
  {
    hide KeyOf, HoldersIn;
    var n := |world| - 1;
    if i < n {
      HoldsIn(world[..n], i, m);
    } else {
      HoldsInOne(world[n].id, world[n].entities, m);
    }
  }

  /** The address has at most fifty entities, or each end has fewer than fifty of
      them before it. */
  ghost predicate WithinCap(world: seq<Connector>, ip: string, k: string, l: string) {
    var holders := Holders(world, ip);
    |holders| <= MAX_IP_ONLY_GROUP || (CountLess(holders, k) < MAX_IP_ONLY_GROUP && CountLess(holders, l) < MAX_IP_ONLY_GROUP)
  }

  /** A link survives the cap exactly when it is strong or within it. */
  lemma SurvivesExactly(fold: Fold, world: seq<Connector>, i: nat, m: nat, j: nat, o: nat)
    requires i < |world| && j < |world| && m < |world[i].entities| && o < |world[j].entities|
    requires MatchReason(fold, world[i].entities[m], world[j].entities[o]) != NoMatch
    ensures var a, b := world[i].entities[m], world[j].entities[o];
      Survives(fold, world, world[i].id, Link(b, a, world[j].id, MatchReason(fold, a, b))) <==>
        SameIdentity(a, b) || CommonName(fold, a, b) || WithinCap(world, a.ip, KeyOf(world[i].id, a), KeyOf(world[j].id, b))
  {
    hide KeyOf, MatchReason, StrongMatchReason, CommonName, WorldKeys, Holders, CountLess, Allowed;
    var a, b := world[i].entities[m], world[j].entities[o];
    MatchReasonExactly(fold, a, b);
    if MatchReason(fold, a, b) == IpAddress {
      var k, l, ip := KeyOf(world[i].id, a), KeyOf(world[j].id, b), a.ip;
      var holders := Holders(world, ip);
      HoldersAreKeys(world, ip);
      HoldsIn(world, i, m);
      HoldsIn(world, j, o);
      assert |multiset(holders)| == |holders|;
      if |holders| > MAX_IP_ONLY_GROUP {
        AllowedExactly(holders, k);
        AllowedExactly(holders, l);
        forall keys | multiset(keys) == WorldKeys(world, ip) && |keys| > MAX_IP_ONLY_GROUP ensures Allowed(keys) == Allowed(holders) {
          AllowedOfPermutation(keys, holders);
        }
      }
    }
  }

  // ------------------------------------------------------------- the edges stored

  function NodeFrom(id: string, e: Entity): Node {
    Node(id, e.kind, e.name, if e.externalID != "" then e.externalID else e.name)
  }

  function KeyFrom(id: string, e: Entity): string {
    id + "\0" + e.kind + "\0" + if e.externalID != "" then e.externalID else e.name
  }

  /** Why two entities match: identity before address before name. */
  ghost function Why(a: Entity, b: Entity): Reason {
    if SameIdentity(a, b) then ExternalId else if SameAddress(a, b) then IpAddress else Hostname
  }

  /** Two entities of two connectors are joined by the edge e: they have an identity
      or a name in common, or an address within the cap; the end with the smaller
      key is the source. */
  ghost predicate Joined(fold: Fold, world: seq<Connector>, i: int, m: int, j: int, o: int, e: Edge) {
    && 0 <= i < |world| && 0 <= j < |world| && world[i].id != world[j].id
    && 0 <= m < |world[i].entities| && 0 <= o < |world[j].entities|
    && var x, y, a, b := world[i].id, world[j].id, world[i].entities[m], world[j].entities[o];
       && (SameIdentity(a, b) || CommonName(fold, a, b) || (SameAddress(a, b) && WithinCap(world, a.ip, KeyFrom(x, a), KeyFrom(y, b))))
       && e == if Less(KeyFrom(y, b), KeyFrom(x, a))
               then Edge("", NodeFrom(y, b), NodeFrom(x, a), SameAs, Why(a, b))
               else Edge("", NodeFrom(x, a), NodeFrom(y, b), SameAs, Why(a, b))
  }

  lemma JoinedIsLink(fold: Fold, world: seq<Connector>, i: nat, m: nat, j: nat, o: nat, e: Edge)
    requires i < |world| && j < |world| && world[i].id != world[j].id
    requires m < |world[i].entities| && o < |world[j].entities|
    ensures var a, b := world[i].entities[m], world[j].entities[o];
      var l := Link(b, a, world[j].id, MatchReason(fold, a, b));
      Joined(fold, world, i, m, j, o, e) <==>
        MatchReason(fold, a, b) != NoMatch && Survives(fold, world, world[i].id, l) && e == SameAsEdge(world[i].id, l)
  {
    hide MatchReason, StrongMatchReason, CommonName, Survives, WithinCap, Less;
    var a, b := world[i].entities[m], world[j].entities[o];
    MatchReasonExactly(fold, a, b);
    if MatchReason(fold, a, b) != NoMatch {
      SurvivesExactly(fold, world, i, m, j, o);
    }
  }

  /** The rebuild of a connector stores exactly the edges of the pairs that are
      joined. */
  lemma SameAsEdgesExactly(fold: Fold, world: seq<Connector>, i: nat, e: Edge)
    requires i < |world|
    ensures SameAsOf(fold, world, world[i], e) <==> exists m, j, o :: Joined(fold, world, i, m, j, o, e)
  {
    hide MatchReason, Survives, SameAsEdge;
    if l :| IsLink(fold, world, world[i], l) && Survives(fold, world, world[i].id, l) && e == SameAsEdge(world[i].id, l) {
      var ci, oi, mi :| LinkAt(fold, world, world[i], ci, oi, mi, l);
      JoinedIsLink(fold, world, i, mi, ci, oi, e);
    }
    if m, j, o :| Joined(fold, world, i, m, j, o, e) {
      JoinedIsLink(fold, world, i, m, j, o, e);
      var a, b := world[i].entities[m], world[j].entities[o];
      var l := Link(b, a, world[j].id, MatchReason(fold, a, b));
      assert LinkAt(fold, world, world[i], j, o, m, l);
    }
  }

  /** Two entities of two connectors at one address are joined from either side when
      the address has at most fifty entities. */
  lemma SharedAddressIsAnEdge(fold: Fold, world: seq<Connector>, i: nat, m: nat, j: nat, o: nat)
    requires World(world) && i < |world| && j < |world| && i != j
    requires m < |world[i].entities| && o < |world[j].entities|
    requires SameAddress(world[i].entities[m], world[j].entities[o])
    requires |Holders(world, world[i].entities[m].ip)| <= MAX_IP_ONLY_GROUP
    ensures var a, b := world[i].entities[m], world[j].entities[o];
      exists e ::
        && SameAsOf(fold, world, world[i], e) && SameAsOf(fold, world, world[j], e)
        && {e.src, e.dst} == {NodeFrom(world[i].id, a), NodeFrom(world[j].id, b)} && e.kind == SameAs
        && e.source == if SameIdentity(a, b) then ExternalId else IpAddress
  {
    hide SameAsOf, CommonName, Less, Holders, DistinctPairs;
    var x, y, a, b := world[i].id, world[j].id, world[i].entities[m], world[j].entities[o];
    var e := if Less(KeyFrom(y, b), KeyFrom(x, a))
             then Edge("", NodeFrom(y, b), NodeFrom(x, a), SameAs, Why(a, b))
             else Edge("", NodeFrom(x, a), NodeFrom(y, b), SameAs, Why(a, b));
    assert x != y;
    assert Joined(fold, world, i, m, j, o, e);
    SameAsEdgesExactly(fold, world, i, e);
    SameAsEdgesIndependentOfSide(fold, world, i, j, e);
  }

  /** A DNS record or rewrite of one connector resolves to a matching entity of
      another that is neither; its own connector owns the edge. */
  ghost predicate Resolved(fold: Fold, from: Connector, to: Connector, d: int, t: int, e: Edge) {
    && 0 <= d < |from.entities| && 0 <= t < |to.entities|
    && var a, b := from.entities[d], to.entities[t];
       && (a.kind == "dns_record" || a.kind == "dns_rewrite") && b.kind != "dns_record" && b.kind != "dns_rewrite"
       && (SameIdentity(a, b) || SameAddress(a, b) || CommonName(fold, a, b))
       && e == Edge(from.id, NodeFrom(from.id, a), NodeFrom(to.id, b), ResolvesTo, Why(a, b))
  }

  lemma ResolvesExactly(fold: Fold, from: Connector, to: Connector, e: Edge)
    ensures Resolves(fold, from, to, e) <==> exists d, t :: Resolved(fold, from, to, d, t, e)
  {
    hide MatchReason, CommonName;
    forall d, t ensures ResolvesAt(fold, from, to, d, t, e) <==> Resolved(fold, from, to, d, t, e) {
      if 0 <= d < |from.entities| && 0 <= t < |to.entities| {
        MatchReasonExactly(fold, from.entities[d], to.entities[t]);
      }
    }
  }
}
