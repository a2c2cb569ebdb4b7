/** Clustering members into identities: identityClusters in
    backend/internal/doc/identities.go. Go maps are iterated in an arbitrary
    order; here every such loop takes its keys in an arbitrary order too. */
module Identities {
  import opened Linking
  import opened Ordering
  import UF = UnionFind

  datatype Member = Member(connectorID: string, kind: string, ref: string, name: string, externalID: string, hostname: string, aliases: seq<string>) {
    function Seen(): Entity { Entity(kind, "", externalID, "", hostname, aliases) }
  }

  datatype Override =
    | Detach(key: string)
    | Merge(key: string, other: string)

  function IdentityKey(connectorID: string, kind: string, ref: string): string {
    connectorID + "\0" + kind + "\0" + ref
  }

  function MemberKey(m: Member): string { IdentityKey(m.connectorID, m.kind, m.ref) }

  ghost predicate DistinctMembers(members: seq<Member>) {
    forall i, j :: 0 <= i < j < |members| ==> MemberKey(members[i]) != MemberKey(members[j])
  }

  // ----------------------------------------------------------- what is linked

  predicate Detached(overrides: seq<Override>, m: Member) {
    exists o :: o in overrides && o.Detach? && o.key == MemberKey(m)
  }

  /** A cross-connector strong match between members that were not detached. */
  ghost predicate AutoLinked(fold: Fold, members: seq<Member>, overrides: seq<Override>, i: nat, j: nat)
    requires i < |members| && j < |members|
  {
    && members[i].connectorID != members[j].connectorID
    && !Detached(overrides, members[i]) && !Detached(overrides, members[j])
    && ShareFeature(fold, members[i].Seen(), members[j].Seen())
  }

  /** A merge override with both ends present. */
  ghost predicate MergeLinked(members: seq<Member>, overrides: seq<Override>, i: nat, j: nat)
    requires i < |members| && j < |members|
  {
    exists o :: o in overrides && o.Merge? && o.key == MemberKey(members[i]) && o.other == MemberKey(members[j])
  }

  datatype Problem = Problem(fold: Fold, members: seq<Member>, overrides: seq<Override>) {
    ghost predicate Linked(i: nat, j: nat) {
      i < |members| && j < |members| &&
      (|| AutoLinked(fold, members, overrides, i, j) || AutoLinked(fold, members, overrides, j, i)
       || MergeLinked(members, overrides, i, j) || MergeLinked(members, overrides, j, i))
    }

    ghost predicate Path(path: seq<nat>) {
      && |path| > 0
      && (forall k :: 0 <= k < |path| ==> path[k] < |members|)
      && (forall k :: 0 <= k < |path| - 1 ==> Linked(path[k], path[k + 1]))
    }

    /** A chain of links leads from i to j. */
    ghost predicate Connected(i: nat, j: nat) {
      exists path :: Path(path) && path[0] == i && path[|path| - 1] == j
    }

    lemma Reflexive(i: nat)
      requires i < |members|
      ensures Connected(i, i)
    {
      assert Path([i]);
    }

    lemma OneLink(i: nat, j: nat)
      requires Linked(i, j)
      ensures Connected(i, j)
    {
      var path := [i, j];
      assert Path(path);
    }

    lemma Symmetric(i: nat, j: nat)
      requires Connected(i, j)
      ensures Connected(j, i)
    {
      var path :| Path(path) && path[0] == i && path[|path| - 1] == j;
      var back := seq(|path|, k requires 0 <= k < |path| => path[|path| - 1 - k]);
      forall k | 0 <= k < |back| - 1 ensures Linked(back[k], back[k + 1]) {
        assert Linked(path[|path| - 2 - k], path[|path| - 2 - k + 1]);
      }
      assert Path(back);
    }

    lemma Transitive(i: nat, j: nat, k: nat)
      requires Connected(i, j) && Connected(j, k)
      ensures Connected(i, k)
    {
      var p :| Path(p) && p[0] == i && p[|p| - 1] == j;
      var q :| Path(q) && q[0] == j && q[|q| - 1] == k;
      var path := p + q[1..];
      forall x | 0 <= x < |path| - 1 ensures Linked(path[x], path[x + 1]) {
        if x < |p| - 1 {
          assert Linked(p[x], p[x + 1]);
        } else {
          assert Linked(q[x - |p| + 1], q[x - |p| + 2]);
        }
      }
      assert Path(path);
    }
  }

  // ----------------------------------------------- representatives and the closure

  /** Members with one representative are connected. */
  ghost predicate Sound(pr: Problem, rep: seq<nat>) {
    && |rep| == |pr.members|
    && forall i, j :: 0 <= i < |rep| && 0 <= j < |rep| && rep[i] == rep[j] ==> pr.Connected(i, j)
  }

  /** Every link has been joined. */
  ghost predicate Complete(pr: Problem, rep: seq<nat>) {
    && |rep| == |pr.members|
    && forall i, j :: 0 <= i < |rep| && 0 <= j < |rep| && pr.Linked(i, j) ==> rep[i] == rep[j]
  }

  /** Members together in r stay together in s. */
  ghost predicate Coarser(r: seq<nat>, s: seq<nat>) {
    |r| == |s| && forall i, j :: 0 <= i < |r| && 0 <= j < |r| && r[i] == r[j] ==> s[i] == s[j]
  }

  lemma {:induction false} PathTogether(pr: Problem, rep: seq<nat>, path: seq<nat>)
    requires Complete(pr, rep) && pr.Path(path)
    ensures rep[path[0]] == rep[path[|path| - 1]]
    decreases |path|
  {
    if |path| > 1 {
      assert pr.Linked(path[0], path[1]);
      var rest := path[1..];
      forall k | 0 <= k < |rest| - 1 ensures pr.Linked(rest[k], rest[k + 1]) {
        assert pr.Linked(path[k + 1], path[k + 1 + 1]);
      }
      assert pr.Path(rest);
      PathTogether(pr, rep, rest);
    }
  }

  /** With every link joined and nothing else, the representatives are exactly the closure. */
  lemma RepsAreClosure(pr: Problem, rep: seq<nat>, i: nat, j: nat)
    requires Sound(pr, rep) && Complete(pr, rep) && i < |rep| && j < |rep|
    ensures rep[i] == rep[j] <==> pr.Connected(i, j)
  {
    if pr.Connected(i, j) {
      var path :| pr.Path(path) && path[0] == i && path[|path| - 1] == j;
      PathTogether(pr, rep, path);
    }
  }

  lemma JoinSound(pr: Problem, rep: seq<nat>, a: nat, b: nat)
    requires Sound(pr, rep) && a < |rep| && b < |rep| && pr.Linked(a, b)
    ensures Sound(pr, UF.JoinReps(rep, a, b))
    ensures Coarser(rep, UF.JoinReps(rep, a, b))
    ensures UF.JoinReps(rep, a, b)[a] == UF.JoinReps(rep, a, b)[b]
  {
    var r := UF.JoinReps(rep, a, b);
    pr.OneLink(a, b);
    pr.Symmetric(a, b);
    forall i, j | 0 <= i < |r| && 0 <= j < |r| && r[i] == r[j] ensures pr.Connected(i, j) {
      if rep[i] == rep[j] {
      } else if rep[i] == rep[b] {
        Bridge(pr, rep, i, b, a, j);
      } else {
        Bridge(pr, rep, i, a, b, j);
      }
    }
  }

  lemma Bridge(pr: Problem, rep: seq<nat>, i: nat, a: nat, b: nat, j: nat)
    requires Sound(pr, rep) && i < |rep| && a < |rep| && b < |rep| && j < |rep|
    requires rep[i] == rep[a] && rep[b] == rep[j] && pr.Connected(a, b)
    ensures pr.Connected(i, j)
  {
    assert pr.Connected(i, a) && pr.Connected(b, j);
    pr.Transitive(i, a, b);
    pr.Transitive(i, b, j);
  }

  // ---------------------------------------------------------- the joining loops

  /** Which members carry each feature. */
  ghost predicate FeatureIndex(pr: Problem, features: map<string, seq<nat>>, n: nat) {
    && n <= |pr.members|
    && (forall f :: f in features ==> forall k :: 0 <= k < |features[f]| ==>
          features[f][k] < n && Carries(pr, features[f][k], f))
    && (forall i, f :: 0 <= i < n && Carries(pr, i, f) ==> f in features && i in features[f])
  }

  ghost predicate Carries(pr: Problem, i: nat, f: string) {
    i < |pr.members| && !Detached(pr.overrides, pr.members[i]) && HasFeature(pr.fold, pr.members[i].Seen(), f)
  }

  method DetachedKeys(overrides: seq<Override>) returns (detached: set<string>)
    ensures forall m: Member :: MemberKey(m) in detached <==> Detached(overrides, m)
  {
    detached := {};
    for k := 0 to |overrides|
      invariant forall key :: key in detached <==> exists i :: 0 <= i < k && overrides[i].Detach? && overrides[i].key == key
    {
      if overrides[k].Detach? {
        detached := detached + {overrides[k].key};
      }
    }
    forall m: Member ensures MemberKey(m) in detached <==> Detached(overrides, m) {
      if Detached(overrides, m) {
        var o :| o in overrides && o.Detach? && o.key == MemberKey(m);
        var i :| 0 <= i < |overrides| && overrides[i] == o;
        assert overrides[i].Detach? && overrides[i].key == MemberKey(m);
      }
    }
  }

  function AddIndex(features: map<string, seq<nat>>, f: string, i: nat): map<string, seq<nat>> {
    features[f := (if f in features then features[f] else []) + [i]]
  }

  method BuildFeatures(pr: Problem) returns (features: map<string, seq<nat>>)
    ensures FeatureIndex(pr, features, |pr.members|)
  {
    var detached := DetachedKeys(pr.overrides);
    features := map[];
    for i := 0 to |pr.members|
      invariant FeatureIndex(pr, features, i)
    {
      var m := pr.members[i];
      if MemberKey(m) in detached {
        SkipMember(pr, features, i);
        continue;
      }
      var keys := StrongIdentityFeatures(pr.fold, m.Seen());
      features := AddMember(pr, features, i, keys);
    }
  }

  lemma SkipMember(pr: Problem, features: map<string, seq<nat>>, i: nat)
    requires i < |pr.members| && FeatureIndex(pr, features, i) && Detached(pr.overrides, pr.members[i])
    ensures FeatureIndex(pr, features, i + 1)
  {
    hide Detached, HasFeature;
  }

  method AddMember(pr: Problem, features: map<string, seq<nat>>, i: nat, keys: seq<string>)
    returns (after: map<string, seq<nat>>)
    requires i < |pr.members| && FeatureIndex(pr, features, i)
    requires !Detached(pr.overrides, pr.members[i])
    requires forall f :: f in keys <==> HasFeature(pr.fold, pr.members[i].Seen(), f)
    ensures FeatureIndex(pr, after, i + 1)
  {
    hide Detached, HasFeature;
    after := features;
    for k := 0 to |keys|
      invariant forall f :: f in after ==> forall x :: 0 <= x < |after[f]| ==>
                  after[f][x] <= i && Carries(pr, after[f][x], f)
      invariant forall j, f :: 0 <= j < i && Carries(pr, j, f) ==> f in after && j in after[f]
      invariant forall x :: 0 <= x < k ==> keys[x] in after && i in after[keys[x]]
    {
      assert keys[k] in keys;
      assert Carries(pr, i, keys[k]);
      after := AddIndex(after, keys[k], i);
    }
    forall j: nat, f | j < i + 1 && Carries(pr, j, f) ensures f in after && j in after[f] {
      if j == i {
        assert f in keys;
        var x :| 0 <= x < |keys| && keys[x] == f;
      }
    }
  }

  /** Indices grouped by connector, connectors in order of first appearance. */
  ghost predicate Grouped(members: seq<Member>, indices: seq<nat>, n: nat, order: seq<string>, byConn: map<string, seq<nat>>) {
    && n <= |indices|
    && (forall k :: 0 <= k < |indices| ==> indices[k] < |members|)
    && (forall a, b :: 0 <= a < b < |order| ==> order[a] != order[b])
    && (forall id :: id in byConn <==> id in order)
    && (forall id :: id in byConn ==> |byConn[id]| > 0)
    && (forall id :: id in byConn ==> forall k :: 0 <= k < |byConn[id]| ==>
          byConn[id][k] in indices && members[byConn[id][k]].connectorID == id)
    && (forall k :: 0 <= k < n ==> members[indices[k]].connectorID in byConn
                                   && indices[k] in byConn[members[indices[k]].connectorID])
  }

  method GroupByConnector(members: seq<Member>, indices: seq<nat>) returns (order: seq<string>, byConn: map<string, seq<nat>>)
    requires forall k :: 0 <= k < |indices| ==> indices[k] < |members|
    ensures Grouped(members, indices, |indices|, order, byConn)
  {
    order, byConn := [], map[];
    for k := 0 to |indices|
      invariant Grouped(members, indices, k, order, byConn)
    {
      var id := members[indices[k]].connectorID;
      if id !in byConn {
        order := order + [id];
      }
      byConn := AddIndex(byConn, id, indices[k]);
      assert indices[k] in indices;
    }
  }

  lemma SharedFeatureLinks(pr: Problem, f: string, i: nat, j: nat)
    requires Carries(pr, i, f) && Carries(pr, j, f) && pr.members[i].connectorID != pr.members[j].connectorID
    ensures pr.Linked(i, j)
  {
    hide HasFeature, Detached;
    assert ShareFeature(pr.fold, pr.members[i].Seen(), pr.members[j].Seen());
  }

  /** Joins every listed member with the target. */
  method JoinAll(pr: Problem, forest: UF.Forest, list: seq<nat>, target: nat)
    requires forest.Valid() && Sound(pr, forest.rep) && target < |forest.rep|
    requires forall k :: 0 <= k < |list| ==> list[k] < |forest.rep| && pr.Linked(list[k], target)
    modifies forest, forest.parent
    ensures forest.Valid() && Sound(pr, forest.rep) && Coarser(old(forest.rep), forest.rep)
    ensures forall k :: 0 <= k < |list| ==> forest.rep[list[k]] == forest.rep[target]
  {
    hide Sound;
    SoundLength(pr, forest.rep);
    for k := 0 to |list|
      invariant forest.Valid() && Sound(pr, forest.rep) && Coarser(old(forest.rep), forest.rep)
      invariant forall x :: 0 <= x < k ==> forest.rep[list[x]] == forest.rep[target]
    {
      JoinSound(pr, forest.rep, list[k], target);
      ghost var before := forest.rep;
      forest.Join(list[k], target);
      assert Coarser(before, forest.rep);
    }
  }

  lemma SoundLength(pr: Problem, rep: seq<nat>)
    requires Sound(pr, rep)
    ensures |rep| == |pr.members|
  {
  }

  /** Members that share the feature across connectors are together. */
  ghost predicate FeatureDone(pr: Problem, rep: seq<nat>, indices: seq<nat>)
    requires |rep| == |pr.members| && forall k :: 0 <= k < |indices| ==> indices[k] < |rep|
  {
    forall a, b :: 0 <= a < |indices| && 0 <= b < |indices|
                   && pr.members[indices[a]].connectorID != pr.members[indices[b]].connectorID
                   ==> rep[indices[a]] == rep[indices[b]]
  }

  /** The star joins of one feature: the first connector's members with one of the
      second connector, and everyone else with the first of the first. */
  method JoinFeature(pr: Problem, forest: UF.Forest, f: string, indices: seq<nat>)
    requires forest.Valid() && Sound(pr, forest.rep)
    requires forall k :: 0 <= k < |indices| ==> indices[k] < |forest.rep| && Carries(pr, indices[k], f)
    modifies forest, forest.parent
    ensures forest.Valid() && Sound(pr, forest.rep) && Coarser(old(forest.rep), forest.rep)
    ensures |forest.rep| == |pr.members| && FeatureDone(pr, forest.rep, indices)
  {
    hide Sound, Carries, FeatureDone;
    SoundLength(pr, forest.rep);
    var order, byConn := GroupByConnector(pr.members, indices);
    if |order| < 2 {
      OneConnector(pr, forest.rep, indices, order, byConn);
      return;
    }
    assert order[0] in order && order[1] in order;
    var primary, other := byConn[order[0]], byConn[order[1]][0];
    GroupLinks(pr, f, indices, order, byConn, 0, 1);
    JoinAll(pr, forest, primary, other);
    for c := 1 to |order|
      invariant forest.Valid() && Sound(pr, forest.rep) && Coarser(old(forest.rep), forest.rep)
      invariant forall k :: 0 <= k < |primary| ==> forest.rep[primary[k]] == forest.rep[other]
      invariant Gathered(forest.rep, order, byConn, primary[0], c)
    {
      ghost var before := forest.rep;
      assert order[c] in order;
      GroupLinks(pr, f, indices, order, byConn, c, 0);
      JoinAll(pr, forest, byConn[order[c]], primary[0]);
      GatherMore(before, forest.rep, order, byConn, primary[0], c);
    }
    StarCovers(pr, forest.rep, indices, order, byConn, primary, other);
  }

  /** The members of connectors 1 to c - 1 are with the hub. */
  ghost predicate Gathered(rep: seq<nat>, order: seq<string>, byConn: map<string, seq<nat>>, hub: nat, c: nat)
  {
    && hub < |rep| && c <= |order|
    && forall x :: 1 <= x < c ==> order[x] in byConn && With(rep, byConn[order[x]], hub)
  }

  ghost predicate With(rep: seq<nat>, list: seq<nat>, hub: nat)
    requires hub < |rep|
  {
    forall k :: 0 <= k < |list| ==> list[k] < |rep| && rep[list[k]] == rep[hub]
  }

  lemma GatherMore(before: seq<nat>, rep: seq<nat>, order: seq<string>, byConn: map<string, seq<nat>>, hub: nat, c: nat)
    requires Gathered(before, order, byConn, hub, c) && Coarser(before, rep) && c < |order|
    requires order[c] in byConn && With(rep, byConn[order[c]], hub)
    ensures Gathered(rep, order, byConn, hub, c + 1)
  {
    forall x | 1 <= x < c ensures With(rep, byConn[order[x]], hub) {
      assert With(before, byConn[order[x]], hub);
    }
  }

  /** The first members of connector y can be joined with any member of connector x. */
  lemma GroupLinks(pr: Problem, f: string, indices: seq<nat>, order: seq<string>, byConn: map<string, seq<nat>>, x: nat, y: nat)
    requires Grouped(pr.members, indices, |indices|, order, byConn)
    requires forall k :: 0 <= k < |indices| ==> Carries(pr, indices[k], f)
    requires x < |order| && y < |order| && x != y && order[x] in byConn && order[y] in byConn
    ensures |byConn[order[y]]| > 0
    ensures forall k :: 0 <= k < |byConn[order[x]]| ==> pr.Linked(byConn[order[x]][k], byConn[order[y]][0])
  {
    hide Carries;
    var hub := byConn[order[y]][0];
    assert hub in indices;
    assert order[x] != order[y];
    forall k | 0 <= k < |byConn[order[x]]| ensures pr.Linked(byConn[order[x]][k], hub) {
      assert byConn[order[x]][k] in indices;
      SharedFeatureLinks(pr, f, byConn[order[x]][k], hub);
    }
  }

  lemma OneConnector(pr: Problem, rep: seq<nat>, indices: seq<nat>, order: seq<string>, byConn: map<string, seq<nat>>)
    requires Grouped(pr.members, indices, |indices|, order, byConn) && |order| < 2 && |rep| == |pr.members|
    requires forall k :: 0 <= k < |indices| ==> indices[k] < |rep|
    ensures FeatureDone(pr, rep, indices)
  {
    forall k | 0 <= k < |indices| ensures |order| == 1 && pr.members[indices[k]].connectorID == order[0] {
      assert pr.members[indices[k]].connectorID in order;
    }
  }

  lemma StarCovers(pr: Problem, rep: seq<nat>, indices: seq<nat>, order: seq<string>, byConn: map<string, seq<nat>>, primary: seq<nat>, other: nat)
    requires Grouped(pr.members, indices, |indices|, order, byConn) && |rep| == |pr.members| && |order| >= 2
    requires forall k :: 0 <= k < |indices| ==> indices[k] < |rep|
    requires order[0] in byConn && primary == byConn[order[0]] && |primary| > 0 && other < |rep|
    requires forall k :: 0 <= k < |primary| ==> primary[k] < |rep| && rep[primary[k]] == rep[other]
    requires Gathered(rep, order, byConn, primary[0], |order|)
    ensures FeatureDone(pr, rep, indices)
  {
    forall a | 0 <= a < |indices| ensures rep[indices[a]] == rep[primary[0]] {
      var id := pr.members[indices[a]].connectorID;
      assert id in order;
      var x :| 0 <= x < |order| && order[x] == id;
      var k :| 0 <= k < |byConn[id]| && byConn[id][k] == indices[a];
      if x > 0 {
        assert With(rep, byConn[order[x]], primary[0]);
      }
    }
  }

  // --------------------------------------------------------------- the overrides

  ghost predicate OverridesDone(pr: Problem, rep: seq<nat>, n: nat)
    requires |rep| == |pr.members| && n <= |pr.overrides|
  {
    forall k :: 0 <= k < n ==> OverrideDone(pr, rep, pr.overrides[k])
  }

  ghost predicate OverrideDone(pr: Problem, rep: seq<nat>, o: Override)
    requires |rep| == |pr.members|
  {
    o.Merge? ==> forall i, j :: 0 <= i < |rep| && 0 <= j < |rep|
                                && MemberKey(pr.members[i]) == o.key && MemberKey(pr.members[j]) == o.other
                                ==> rep[i] == rep[j]
  }

  method IndexMembers(members: seq<Member>) returns (index: map<string, nat>)
    requires DistinctMembers(members)
    ensures forall i :: 0 <= i < |members| ==> MemberKey(members[i]) in index && index[MemberKey(members[i])] == i
    ensures forall k :: k in index ==> index[k] < |members| && MemberKey(members[index[k]]) == k
  {
    index := map[];
    for i := 0 to |members|
      invariant forall j :: 0 <= j < i ==> MemberKey(members[j]) in index && index[MemberKey(members[j])] == j
      invariant forall k :: k in index ==> index[k] < |members| && MemberKey(members[index[k]]) == k
    {
      index := index[MemberKey(members[i]) := i];
    }
  }

  method ApplyMerges(pr: Problem, forest: UF.Forest)
    requires forest.Valid() && Sound(pr, forest.rep) && DistinctMembers(pr.members)
    modifies forest, forest.parent
    ensures forest.Valid() && Sound(pr, forest.rep) && Coarser(old(forest.rep), forest.rep)
    ensures |forest.rep| == |pr.members| && OverridesDone(pr, forest.rep, |pr.overrides|)
  {
    hide Sound, OverrideDone;
    SoundLength(pr, forest.rep);
    var index := IndexMembers(pr.members);
    for k := 0 to |pr.overrides|
      invariant forest.Valid() && Sound(pr, forest.rep) && Coarser(old(forest.rep), forest.rep)
      invariant OverridesDone(pr, forest.rep, k)
    {
      var o := pr.overrides[k];
      ghost var before := forest.rep;
      if o.Merge? && o.key in index && o.other in index {
        var a, b := index[o.key], index[o.other];
        assert o in pr.overrides;
        assert pr.Linked(a, b);
        JoinSound(pr, forest.rep, a, b);
        forest.Join(a, b);
      }
      assert Coarser(before, forest.rep);
      MergeApplied(pr, forest.rep, o, index);
      OverridesStay(pr, before, forest.rep, k);
    }
  }

  lemma MergeApplied(pr: Problem, rep: seq<nat>, o: Override, index: map<string, nat>)
    requires |rep| == |pr.members|
    requires forall i :: 0 <= i < |rep| ==> MemberKey(pr.members[i]) in index && index[MemberKey(pr.members[i])] == i
    requires o.Merge? && o.key in index && o.other in index && index[o.key] < |rep| && index[o.other] < |rep|
             ==> rep[index[o.key]] == rep[index[o.other]]
    ensures OverrideDone(pr, rep, o)
  {
    hide MemberKey;
  }

  lemma OverridesStay(pr: Problem, before: seq<nat>, rep: seq<nat>, k: nat)
    requires |rep| == |pr.members| && k < |pr.overrides| && Coarser(before, rep)
    requires OverridesDone(pr, before, k) && OverrideDone(pr, rep, pr.overrides[k])
    ensures OverridesDone(pr, rep, k + 1)
  {
    hide MemberKey;
    forall x | 0 <= x < k ensures OverrideDone(pr, rep, pr.overrides[x]) {
      assert OverrideDone(pr, before, pr.overrides[x]);
    }
  }
}
