/** The clusters themselves: grouping by root, canonical sorting, and why the
    result is the same for every map iteration order. */
module Clusters {
  import opened Linking
  import opened Ordering
  import opened Identities
  import UF = UnionFind

  function ClusterKey(c: seq<Member>): string { if c == [] then "" else MemberKey(c[0]) }

  // ------------------------------------------------------------- what is promised

  /** c lists, in key order, exactly the members connected to member i. */
  ghost predicate IsClassOf(pr: Problem, c: seq<Member>, i: nat) {
    && i < |pr.members| && pr.members[i] in c
    && Ascending(MemberKey, c)
    && (forall m :: m in c ==> m in pr.members)
    && (forall j :: 0 <= j < |pr.members| ==> (pr.members[j] in c <==> pr.Connected(i, j)))
  }

  /** The clusters are the classes of the closure, in key order. */
  ghost predicate IsClustering(pr: Problem, out: seq<seq<Member>>) {
    && Ascending(ClusterKey, out)
    && (forall c :: c in out ==> exists i: nat :: IsClassOf(pr, c, i))
    && (forall i :: 0 <= i < |pr.members| ==> exists c :: c in out && pr.members[i] in c)
  }

  lemma ClassesAgree(pr: Problem, c: seq<Member>, i: nat, d: seq<Member>, j: nat)
    requires IsClassOf(pr, c, i) && IsClassOf(pr, d, j) && pr.members[i] in d
    ensures c == d
  {
    assert pr.Connected(j, i);
    pr.Symmetric(j, i);
    forall m ensures m in c <==> m in d {
      if m in c || m in d {
        assert m in pr.members;
        var k :| 0 <= k < |pr.members| && pr.members[k] == m;
        if pr.Connected(i, k) { pr.Transitive(j, i, k); }
        if pr.Connected(j, k) { pr.Transitive(i, j, k); }
      }
    }
    AscendingUnique(MemberKey, c, d);
  }

  lemma ClassFacts(pr: Problem, c: seq<Member>, i: nat)
    requires IsClassOf(pr, c, i)
    ensures i < |pr.members|
    ensures forall j :: 0 <= j < |pr.members| ==> (pr.members[j] in c <==> pr.Connected(i, j))
  {
  }

  lemma ClusterInBoth(pr: Problem, a: seq<seq<Member>>, b: seq<seq<Member>>, c: seq<Member>)
    requires IsClustering(pr, a) && IsClustering(pr, b) && c in a
    ensures c in b
  {
    hide IsClassOf, Ascending;
    var i: nat :| IsClassOf(pr, c, i);
    ClassFacts(pr, c, i);
    var d, j := ClusterOf(pr, b, i);
    ClassesAgree(pr, c, i, d, j);
  }

  lemma ClusterOf(pr: Problem, out: seq<seq<Member>>, i: nat) returns (c: seq<Member>, j: nat)
    requires IsClustering(pr, out) && i < |pr.members|
    ensures c in out && pr.members[i] in c && IsClassOf(pr, c, j)
  {
    hide IsClassOf, Ascending;
    var m := pr.members[i];
    assert exists c :: c in out && m in c;
    c :| c in out && m in c;
    j :| IsClassOf(pr, c, j);
  }

  /** There is one canonical clustering, so no iteration order can change the result. */
  lemma ClusteringIsUnique(pr: Problem, a: seq<seq<Member>>, b: seq<seq<Member>>)
    requires IsClustering(pr, a) && IsClustering(pr, b)
    ensures a == b
  {
    hide IsClassOf, ClusterKey;
    forall c ensures c in a <==> c in b {
      if c in a { ClusterInBoth(pr, a, b, c); }
      if c in b { ClusterInBoth(pr, b, a, c); }
    }
    AscendingUnique(ClusterKey, a, b);
  }

  /** The automatic links are the strong matches that live linking shows, and the
      pairs confused by a NUL character in a kind. */
  lemma AutoLinkIsStrongMatch(pr: Problem, i: nat, j: nat)
    requires i < |pr.members| && j < |pr.members|
    ensures var a, b := pr.members[i].Seen(), pr.members[j].Seen();
      AutoLinked(pr.fold, pr.members, pr.overrides, i, j) <==>
      && pr.members[i].connectorID != pr.members[j].connectorID
      && !Detached(pr.overrides, pr.members[i]) && !Detached(pr.overrides, pr.members[j])
      && (StrongMatchReason(pr.fold, a, b) != NoMatch || Confused(a, b))
  {
    hide ShareFeature, StrongMatchReason, Detached, Confused;
    SharedFeatureExactly(pr.fold, pr.members[i].Seen(), pr.members[j].Seen());
  }

  /** One of the member's own names. */
  predicate Called(m: Member, name: string) {
    name != "" && (m.hostname == name || name in m.aliases)
  }

  ghost predicate SharedName(fold: Fold, m: Member, n: Member) {
    exists x, y :: Called(m, x) && Called(n, y) && fold(x) == fold(y)
  }

  /** Both have an external id, and kind and id read the same once joined by a NUL. */
  predicate SharedId(m: Member, n: Member) {
    m.externalID != "" && n.externalID != "" && m.kind + "\0" + m.externalID == n.kind + "\0" + n.externalID
  }

  lemma SharedNameOfSeen(fold: Fold, m: Member, n: Member)
    ensures CommonName(fold, m.Seen(), n.Seen()) <==> SharedName(fold, m, n)
  {
    if x, y :| HasName(m.Seen(), x) && HasName(n.Seen(), y) && fold(x) == fold(y) {
      assert Called(m, x) && Called(n, y);
    }
    if x, y :| Called(m, x) && Called(n, y) && fold(x) == fold(y) {
      assert HasName(m.Seen(), x) && HasName(n.Seen(), y);
    }
  }

  /** The automatic link from what the members carry: two connectors, neither one
      detached, and an external id or a folded name in common. */
  lemma AutoLinkExactly(pr: Problem, i: nat, j: nat)
    requires i < |pr.members| && j < |pr.members|
    ensures var m, n := pr.members[i], pr.members[j];
      AutoLinked(pr.fold, pr.members, pr.overrides, i, j) <==>
      && m.connectorID != n.connectorID
      && !Detached(pr.overrides, m) && !Detached(pr.overrides, n)
      && (SharedId(m, n) || SharedName(pr.fold, m, n))
  {
    hide ShareFeature, StrongMatchReason, CommonName, SharedName, Detached;
    var m, n := pr.members[i], pr.members[j];
    AutoLinkIsStrongMatch(pr, i, j);
    MatchReasonExactly(pr.fold, m.Seen(), n.Seen());
    SharedNameOfSeen(pr.fold, m, n);
    assert m.kind == n.kind && m.externalID == n.externalID ==>
      m.kind + "\0" + m.externalID == n.kind + "\0" + n.externalID;
  }

  /** A merge override joins its two members, detached or not. */
  lemma MergedAreTogether(pr: Problem, out: seq<seq<Member>>, o: Override, i: nat, j: nat)
    requires IsClustering(pr, out) && i < |pr.members| && j < |pr.members|
    requires o in pr.overrides && o.Merge? && o.key == MemberKey(pr.members[i]) && o.other == MemberKey(pr.members[j])
    ensures exists c :: c in out && pr.members[i] in c && pr.members[j] in c
  {
    hide IsClustering, AutoLinked;
    assert pr.Linked(i, j);
    pr.OneLink(i, j);
    SameClusterIffConnected(pr, out, i, j);
  }

  /** No override puts the member together with another. */
  ghost predicate Unmerged(overrides: seq<Override>, m: Member) {
    forall o :: o in overrides && o.Merge? ==> o.key != MemberKey(m) && o.other != MemberKey(m)
  }

  lemma DetachedIsUnlinked(pr: Problem, i: nat, j: nat)
    requires i < |pr.members| && Detach(MemberKey(pr.members[i])) in pr.overrides && Unmerged(pr.overrides, pr.members[i])
    ensures !pr.Linked(i, j)
  {
    hide ShareFeature;
    assert Detached(pr.overrides, pr.members[i]);
  }

  /** A detached member that no merge override names is an identity of its own. */
  lemma DetachedIsAlone(pr: Problem, out: seq<seq<Member>>, i: nat)
    requires IsClustering(pr, out) && i < |pr.members|
    requires Detach(MemberKey(pr.members[i])) in pr.overrides && Unmerged(pr.overrides, pr.members[i])
    ensures exists c :: c in out && forall m :: m in c <==> m == pr.members[i]
  {
    hide IsClustering, IsClassOf, MemberKey, Unmerged, Problem.Connected;
    var c, k := ClusterOf(pr, out, i);
    forall m | m in c ensures m == pr.members[i] {
      var j := ConnectedInClass(pr, c, k, i, m);
      AloneOnPath(pr, i, j);
    }
  }

  lemma ConnectedInClass(pr: Problem, c: seq<Member>, k: nat, i: nat, m: Member) returns (j: nat)
    requires IsClassOf(pr, c, k) && i < |pr.members| && pr.members[i] in c && m in c
    ensures j < |pr.members| && pr.members[j] == m && pr.Connected(i, j)
  {
    hide Ascending, Problem.Connected;
    assert m in pr.members;
    j :| 0 <= j < |pr.members| && pr.members[j] == m;
    pr.Symmetric(k, i);
    pr.Transitive(i, k, j);
  }

  lemma AloneOnPath(pr: Problem, i: nat, j: nat)
    requires i < |pr.members| && Detach(MemberKey(pr.members[i])) in pr.overrides && Unmerged(pr.overrides, pr.members[i])
    requires pr.Connected(i, j)
    ensures i == j
  {
    hide Unmerged, Problem.Linked;
    var path :| pr.Path(path) && path[0] == i && path[|path| - 1] == j;
    if |path| > 1 {
      assert pr.Linked(path[0], path[0 + 1]);
      DetachedIsUnlinked(pr, i, path[1]);
    }
  }

  /** The key overrides name a member by: without a NUL character in connector or
      kind it stands for exactly these three fields. */
  lemma MemberKeyExactly(m: Member, n: Member)
    requires '\0' !in m.connectorID && '\0' !in m.kind
    requires '\0' !in n.connectorID && '\0' !in n.kind
    ensures MemberKey(m) == MemberKey(n) <==> m.connectorID == n.connectorID && m.kind == n.kind && m.ref == n.ref
  {
    if MemberKey(m) == MemberKey(n) {
      KeyTail(m);
      KeyTail(n);
      SplitAtNul(m.connectorID, m.kind + "\0" + m.ref, n.connectorID, n.kind + "\0" + n.ref);
      SplitAtNul(m.kind, m.ref, n.kind, n.ref);
    }
  }

  lemma KeyTail(m: Member)
    ensures MemberKey(m) == m.connectorID + "\0" + (m.kind + "\0" + m.ref)
  {
  }

  /** Two members share a cluster exactly when a chain of links joins them. */
  lemma SameClusterIffConnected(pr: Problem, out: seq<seq<Member>>, i: nat, j: nat)
    requires IsClustering(pr, out) && i < |pr.members| && j < |pr.members|
    ensures (exists c :: c in out && pr.members[i] in c && pr.members[j] in c) <==> pr.Connected(i, j)
  {
    hide IsClassOf, Ascending, Problem.Connected;
    if c :| c in out && pr.members[i] in c && pr.members[j] in c {
      var k: nat :| IsClassOf(pr, c, k);
      ClassFacts(pr, c, k);
      pr.Symmetric(k, i);
      pr.Transitive(i, k, j);
    }
    if pr.Connected(i, j) {
      var c :| c in out && pr.members[i] in c;
      var k: nat :| IsClassOf(pr, c, k);
      ClassFacts(pr, c, k);
      pr.Transitive(k, i, j);
      assert pr.members[j] in c;
    }
  }

  // --------------------------------------------------------------- groups by root

  /** m is one of the first n members and has root r. */
  ghost predicate Under(members: seq<Member>, rep: seq<nat>, r: nat, n: nat, m: Member)
    requires |rep| == |members| && n <= |members|
  {
    exists i :: 0 <= i < n && rep[i] == r && members[i] == m
  }

  /** The members of one root among the first n. */
  ghost predicate GroupOf(members: seq<Member>, rep: seq<nat>, g: seq<Member>, r: nat, n: nat)
    requires |rep| == |members| && n <= |members|
  {
    && (forall m :: m in g <==> Under(members, rep, r, n, m))
    && DistinctBy(MemberKey, g)
  }

  ghost predicate Groups(members: seq<Member>, rep: seq<nat>, groups: map<nat, seq<Member>>, n: nat)
    requires |rep| == |members| && n <= |members|
  {
    && (forall r :: r in groups ==> groups[r] != [] && GroupOf(members, rep, groups[r], r, n))
    && (forall i :: 0 <= i < n ==> rep[i] in groups)
  }

  lemma UnderNext(members: seq<Member>, rep: seq<nat>, r: nat, n: nat, m: Member)
    requires |rep| == |members| && n < |members|
    ensures Under(members, rep, r, n + 1, m) <==> Under(members, rep, r, n, m) || (rep[n] == r && members[n] == m)
  {
  }

  lemma GroupGrows(members: seq<Member>, rep: seq<nat>, g: seq<Member>, r: nat, n: nat)
    requires |rep| == |members| && n < |members| && DistinctMembers(members)
    requires GroupOf(members, rep, g, r, n)
    ensures GroupOf(members, rep, if rep[n] == r then g + [members[n]] else g, r, n + 1)
  {
    hide MemberKey, Under;
    var h := if rep[n] == r then g + [members[n]] else g;
    forall m ensures m in h <==> Under(members, rep, r, n + 1, m) {
      UnderNext(members, rep, r, n, m);
    }
    forall a, b | 0 <= a < b < |h| ensures MemberKey(h[a]) != MemberKey(h[b]) {
      if b == |g| {
        assert g[a] in g;
        UnderKey(members, rep, r, n, g[a]);
      }
    }
  }

  lemma UnderKey(members: seq<Member>, rep: seq<nat>, r: nat, n: nat, m: Member)
    requires |rep| == |members| && n < |members| && DistinctMembers(members) && Under(members, rep, r, n, m)
    ensures MemberKey(m) != MemberKey(members[n])
  {
    hide MemberKey;
  }

  lemma GroupsGrow(members: seq<Member>, rep: seq<nat>, groups: map<nat, seq<Member>>, n: nat)
    requires |rep| == |members| && n < |members| && DistinctMembers(members)
    requires Groups(members, rep, groups, n)
    ensures var r := rep[n];
            Groups(members, rep, groups[r := (if r in groups then groups[r] else []) + [members[n]]], n + 1)
  {
    hide GroupOf;
    var r := rep[n];
    if r !in groups {
      NoGroupYet(members, rep, r, n);
      GroupGrows(members, rep, [], r, n);
      assert [] + [members[n]] == [members[n]];
    }
    forall x | x in groups ensures GroupOf(members, rep, if rep[n] == x then groups[x] + [members[n]] else groups[x], x, n + 1) {
      GroupGrows(members, rep, groups[x], x, n);
    }
  }

  lemma NoGroupYet(members: seq<Member>, rep: seq<nat>, r: nat, n: nat)
    requires |rep| == |members| && n <= |members| && forall i :: 0 <= i < n ==> rep[i] != r
    ensures GroupOf(members, rep, [], r, n)
  {
  }

  method GroupByRoot(members: seq<Member>, forest: UF.Forest) returns (groups: map<nat, seq<Member>>)
    requires forest.Valid() && |forest.rep| == |members| && DistinctMembers(members)
    modifies forest.parent
    ensures forest.Valid()
    ensures Groups(members, forest.rep, groups, |members|)
  {
    hide GroupOf;
    groups := map[];
    for i := 0 to |members|
      invariant forest.Valid() && forest.rep == old(forest.rep)
      invariant Groups(members, forest.rep, groups, i)
    {
      var r := forest.Root(i);
      GroupsGrow(members, forest.rep, groups, i);
      groups := groups[r := (if r in groups then groups[r] else []) + [members[i]]];
    }
  }

  // ------------------------------------------------------------------ the clusters

  /** c is the sorted group of root r. */
  ghost predicate SortedGroup(members: seq<Member>, rep: seq<nat>, c: seq<Member>, r: nat)
    requires |rep| == |members|
  {
    && c != [] && Ascending(MemberKey, c)
    && (forall m :: m in c <==> Under(members, rep, r, |members|, m))
  }

  lemma SortGroup(members: seq<Member>, rep: seq<nat>, g: seq<Member>, r: nat)
    requires |rep| == |members| && g != [] && GroupOf(members, rep, g, r, |members|)
    ensures SortedGroup(members, rep, SortBy(MemberKey, g), r)
  {
    hide MemberKey, Under;
    SortBySorts(MemberKey, g);
    SortByMember(MemberKey, g, g[0]);
    forall m ensures m in SortBy(MemberKey, g) <==> m in g {
      SortByMember(MemberKey, g, m);
    }
  }

  lemma DifferentGroups(members: seq<Member>, rep: seq<nat>, c: seq<Member>, r: nat, d: seq<Member>, q: nat)
    requires |rep| == |members| && DistinctMembers(members) && r != q
    requires SortedGroup(members, rep, c, r) && SortedGroup(members, rep, d, q)
    ensures ClusterKey(c) != ClusterKey(d)
  {
    hide MemberKey, Ascending;
    assert c[0] in c && d[0] in d;
    assert Under(members, rep, r, |members|, c[0]) && Under(members, rep, q, |members|, d[0]);
    var i :| 0 <= i < |members| && rep[i] == r && members[i] == c[0];
    var j :| 0 <= j < |members| && rep[j] == q && members[j] == d[0];
    assert i != j;
  }

  /** The sorted groups of the roots done so far, in some order. */
  ghost predicate Collected(members: seq<Member>, rep: seq<nat>, roots: seq<nat>, clusters: seq<seq<Member>>)
    requires |rep| == |members|
  {
    && |roots| == |clusters|
    && (forall a, b :: 0 <= a < b < |roots| ==> roots[a] != roots[b])
    && (forall k :: 0 <= k < |roots| ==> SortedGroup(members, rep, clusters[k], roots[k]))
  }

  method CollectClusters(members: seq<Member>, ghost rep: seq<nat>, groups: map<nat, seq<Member>>)
    returns (clusters: seq<seq<Member>>, ghost roots: seq<nat>)
    requires |rep| == |members| && Groups(members, rep, groups, |members|)
    ensures Collected(members, rep, roots, clusters)
    ensures forall r :: r in groups ==> r in roots
  {
    hide GroupOf, SortedGroup;
    clusters, roots := [], [];
    var left := groups.Keys;
    while left != {}
      invariant left <= groups.Keys
      invariant forall r :: r in groups ==> (r in left <==> r !in roots)
      invariant Collected(members, rep, roots, clusters)
      decreases left
    {
      var r :| r in left;
      left := left - {r};
      SortGroup(members, rep, groups[r], r);
      clusters, roots := clusters + [SortBy(MemberKey, groups[r])], roots + [r];
    }
  }

  lemma CollectedDistinct(members: seq<Member>, rep: seq<nat>, roots: seq<nat>, clusters: seq<seq<Member>>)
    requires |rep| == |members| && DistinctMembers(members) && Collected(members, rep, roots, clusters)
    ensures DistinctBy(ClusterKey, clusters)
  {
    hide SortedGroup, ClusterKey;
    forall a, b | 0 <= a < b < |clusters| ensures ClusterKey(clusters[a]) != ClusterKey(clusters[b]) {
      DifferentGroups(members, rep, clusters[a], roots[a], clusters[b], roots[b]);
    }
  }

  lemma GroupIsClass(pr: Problem, rep: seq<nat>, c: seq<Member>, r: nat)
    requires Sound(pr, rep) && Complete(pr, rep) && DistinctMembers(pr.members) && |rep| == |pr.members|
    requires SortedGroup(pr.members, rep, c, r)
    ensures exists i: nat :: IsClassOf(pr, c, i)
  {
    hide MemberKey, Sound, Complete, Ascending, DistinctMembers;
    assert c[0] in c && Under(pr.members, rep, r, |pr.members|, c[0]);
    var i: nat :| i < |pr.members| && rep[i] == r && pr.members[i] == c[0];
    forall m | m in c ensures m in pr.members {
      assert Under(pr.members, rep, r, |pr.members|, m);
    }
    forall j | 0 <= j < |pr.members| ensures pr.members[j] in c <==> pr.Connected(i, j) {
      RepsAreClosure(pr, rep, i, j);
      RootOfMember(pr.members, rep, r, j);
    }
    assert IsClassOf(pr, c, i);
  }

  lemma RootOfMember(members: seq<Member>, rep: seq<nat>, r: nat, j: nat)
    requires |rep| == |members| && DistinctMembers(members) && j < |members|
    ensures Under(members, rep, r, |members|, members[j]) <==> rep[j] == r
  {
    if Under(members, rep, r, |members|, members[j]) {
      var k :| 0 <= k < |members| && rep[k] == r && members[k] == members[j];
      SameIndex(members, k, j);
    }
  }

  lemma SameIndex(members: seq<Member>, i: nat, j: nat)
    requires DistinctMembers(members) && i < |members| && j < |members| && members[i] == members[j]
    ensures i == j
  {
  }

  lemma SortedClusteringOk(pr: Problem, rep: seq<nat>, groups: map<nat, seq<Member>>, roots: seq<nat>, clusters: seq<seq<Member>>)
    requires Sound(pr, rep) && Complete(pr, rep) && DistinctMembers(pr.members) && |rep| == |pr.members|
    requires Groups(pr.members, rep, groups, |pr.members|)
    requires Collected(pr.members, rep, roots, clusters) && forall r :: r in groups ==> r in roots
    ensures IsClustering(pr, SortBy(ClusterKey, clusters))
  {
    hide MemberKey, Sound, Complete, GroupOf, SortedGroup, ClusterKey, IsClassOf, DistinctMembers, Ascending;
    var out := SortBy(ClusterKey, clusters);
    CollectedDistinct(pr.members, rep, roots, clusters);
    SortBySorts(ClusterKey, clusters);
    forall c | c in out ensures exists i: nat :: IsClassOf(pr, c, i) {
      SortByMember(ClusterKey, clusters, c);
      var k :| 0 <= k < |clusters| && clusters[k] == c;
      GroupIsClass(pr, rep, c, roots[k]);
    }
    forall i | 0 <= i < |pr.members| ensures exists c :: c in out && pr.members[i] in c {
      var r := rep[i];
      assert r in groups && r in roots;
      var k :| 0 <= k < |roots| && roots[k] == r;
      SortByMember(ClusterKey, clusters, clusters[k]);
      InSortedGroup(pr.members, rep, clusters[k], r, i);
    }
    assert Ascending(ClusterKey, out);
    assert forall c :: c in out ==> exists i: nat :: IsClassOf(pr, c, i);
    assert forall i :: 0 <= i < |pr.members| ==> exists c :: c in out && pr.members[i] in c;
  }

  lemma InSortedGroup(members: seq<Member>, rep: seq<nat>, c: seq<Member>, r: nat, i: nat)
    requires |rep| == |members| && SortedGroup(members, rep, c, r) && i < |members| && rep[i] == r
    ensures members[i] in c
  {
  }

  // ------------------------------------------------------------- identityClusters

  method IdentityClusters(pr: Problem) returns (clusters: seq<seq<Member>>)
    requires DistinctMembers(pr.members)
    ensures IsClustering(pr, clusters)
  {
    hide Sound, Complete, FeatureDone, Groups, DistinctMembers, Collected, IsClustering;
    var n := |pr.members|;
    var forest := new UF.Forest(n);
    StartSound(pr, forest.rep);
    var features := BuildFeatures(pr);
    JoinFeatures(pr, forest, features);
    ghost var joined := forest.rep;
    ApplyMerges(pr, forest);
    AllJoined(pr, features, joined, forest.rep);
    var groups := GroupByRoot(pr.members, forest);
    ghost var roots: seq<nat>;
    clusters, roots := CollectClusters(pr.members, forest.rep, groups);
    SortedClusteringOk(pr, forest.rep, groups, roots, clusters);
    clusters := SortBy(ClusterKey, clusters);
  }

  lemma StartSound(pr: Problem, rep: seq<nat>)
    requires rep == seq(|pr.members|, i => i)
    ensures Sound(pr, rep)
  {
    forall i, j | 0 <= i < |rep| && 0 <= j < |rep| && rep[i] == rep[j] ensures pr.Connected(i, j) {
      pr.Reflexive(i);
    }
  }

  ghost predicate FeaturesDone(pr: Problem, rep: seq<nat>, features: map<string, seq<nat>>, left: set<string>)
    requires |rep| == |pr.members| && FeatureIndex(pr, features, |pr.members|)
  {
    forall f :: f in features && f !in left ==> FeatureDone(pr, rep, features[f])
  }

  lemma FeaturesStay(pr: Problem, before: seq<nat>, rep: seq<nat>, features: map<string, seq<nat>>, left: set<string>, f: string)
    requires |before| == |rep| == |pr.members| && FeatureIndex(pr, features, |pr.members|) && f in features
    requires FeaturesDone(pr, before, features, left) && Coarser(before, rep) && FeatureDone(pr, rep, features[f])
    ensures FeaturesDone(pr, rep, features, left - {f})
  {
    hide Carries;
    forall g | g in features && g !in left - {f} ensures FeatureDone(pr, rep, features[g]) {
      if g != f {
        assert FeatureDone(pr, before, features[g]);
      }
    }
  }

  method JoinFeatures(pr: Problem, forest: UF.Forest, features: map<string, seq<nat>>)
    requires forest.Valid() && Sound(pr, forest.rep) && FeatureIndex(pr, features, |pr.members|)
    modifies forest, forest.parent
    ensures forest.Valid() && Sound(pr, forest.rep) && |forest.rep| == |pr.members|
    ensures FeaturesDone(pr, forest.rep, features, {})
  {
    hide Sound, Carries, FeatureDone, Coarser;
    SoundLength(pr, forest.rep);
    var left := features.Keys;
    while left != {}
      invariant forest.Valid() && Sound(pr, forest.rep) && left <= features.Keys
      invariant |forest.rep| == |pr.members| && FeaturesDone(pr, forest.rep, features, left)
      decreases left
    {
      var f :| f in left;
      ghost var before := forest.rep;
      JoinFeature(pr, forest, f, features[f]);
      FeaturesStay(pr, before, forest.rep, features, left, f);
      left := left - {f};
    }
  }

  /** After all features and overrides every link is joined. */
  lemma AllJoined(pr: Problem, features: map<string, seq<nat>>, joined: seq<nat>, rep: seq<nat>)
    requires |joined| == |rep| == |pr.members| && FeatureIndex(pr, features, |pr.members|)
    requires FeaturesDone(pr, joined, features, {}) && Coarser(joined, rep)
    requires OverridesDone(pr, rep, |pr.overrides|)
    ensures Complete(pr, rep)
  {
    hide FeaturesDone, FeatureIndex, OverridesDone, Coarser;
    forall i, j | 0 <= i < |rep| && 0 <= j < |rep| && pr.Linked(i, j) ensures rep[i] == rep[j] {
      if AutoLinked(pr.fold, pr.members, pr.overrides, i, j) || AutoLinked(pr.fold, pr.members, pr.overrides, j, i) {
        AutoJoined(pr, features, joined, rep, i, j);
      } else if MergeLinked(pr.members, pr.overrides, i, j) {
        MergeJoined(pr, rep, i, j);
      } else {
        MergeJoined(pr, rep, j, i);
      }
    }
  }

  lemma AutoJoined(pr: Problem, features: map<string, seq<nat>>, joined: seq<nat>, rep: seq<nat>, i: nat, j: nat)
    requires |joined| == |rep| == |pr.members| && FeatureIndex(pr, features, |pr.members|)
    requires FeaturesDone(pr, joined, features, {}) && Coarser(joined, rep) && i < |rep| && j < |rep|
    requires AutoLinked(pr.fold, pr.members, pr.overrides, i, j) || AutoLinked(pr.fold, pr.members, pr.overrides, j, i)
    ensures rep[i] == rep[j]
  {
    hide HasFeature, Detached;
    var f :| HasFeature(pr.fold, pr.members[i].Seen(), f) && HasFeature(pr.fold, pr.members[j].Seen(), f);
    assert Carries(pr, i, f) && Carries(pr, j, f);
    assert f in features && i in features[f] && j in features[f];
    var a :| 0 <= a < |features[f]| && features[f][a] == i;
    var b :| 0 <= b < |features[f]| && features[f][b] == j;
    assert FeatureDone(pr, joined, features[f]);
  }

  lemma MergeJoined(pr: Problem, rep: seq<nat>, i: nat, j: nat)
    requires |rep| == |pr.members| && i < |rep| && j < |rep|
    requires MergeLinked(pr.members, pr.overrides, i, j) && OverridesDone(pr, rep, |pr.overrides|)
    ensures rep[i] == rep[j]
  {
    hide MemberKey;
    var o :| o in pr.overrides && o.Merge? && o.key == MemberKey(pr.members[i]) && o.other == MemberKey(pr.members[j]);
    var k :| 0 <= k < |pr.overrides| && pr.overrides[k] == o;
    assert OverrideDone(pr, rep, pr.overrides[k]);
  }
}
