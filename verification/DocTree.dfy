/** The parent check of ValidateBundle (backend/internal/backup/backup.go) and
    what it guarantees about a set of documents. */
module DocTree {
  const MAX_DEPTH := 5

  datatype DocRecord = DocRecord(id: string, parent: string, scope: string, deleted: bool)

  type Index = map<string, DocRecord>

  /** The last document with an id wins. */
  function ById(docs: seq<DocRecord>): Index {
    if docs == [] then map[] else ById(docs[..|docs| - 1])[docs[|docs| - 1].id := docs[|docs| - 1]]
  }

  predicate FitsUnder(d: DocRecord, parent: DocRecord) {
    parent.scope == d.scope && (d.deleted || !parent.deleted)
  }

  /** The walk from one document to its root, as the check performs it. */
  predicate Walk(m: Index, d: DocRecord, parent: string, seen: set<string>, depth: nat)
    requires 1 <= depth <= MAX_DEPTH
    decreases MAX_DEPTH - depth
  {
    parent == "" ||
    (parent in m && FitsUnder(d, m[parent]) && parent !in seen && depth < MAX_DEPTH
     && Walk(m, d, m[parent].parent, seen + {parent}, depth + 1))
  }

  ghost predicate Accepts(docs: seq<DocRecord>) {
    forall d <- docs :: Walk(ById(docs), d, d.parent, {d.id}, 1)
  }

  method CheckChain(m: Index, d: DocRecord) returns (ok: bool)
    ensures ok == Walk(m, d, d.parent, {d.id}, 1)
  {
    var seen, depth, parent := {d.id}, 1, d.parent;
    while parent != ""
      invariant 1 <= depth <= MAX_DEPTH
      invariant Walk(m, d, d.parent, {d.id}, 1) == Walk(m, d, parent, seen, depth)
      decreases MAX_DEPTH - depth
    {
      if parent !in m || m[parent].scope != d.scope || parent in seen || (!d.deleted && m[parent].deleted) {
        return false;
      }
      if depth + 1 > MAX_DEPTH {
        return false;
      }
      seen := seen + {parent};
      depth := depth + 1;
      parent := m[parent].parent;
    }
    return true;
  }

  method ValidateParents(docs: seq<DocRecord>) returns (ok: bool)
    ensures ok == Accepts(docs)
  {
    var m: Index := map[];
    for i := 0 to |docs|
      invariant m == ById(docs[..i])
    {
      assert docs[..i + 1][..i] == docs[..i];
      m := m[docs[i].id := docs[i]];
    }
    assert docs[..|docs|] == docs;
    for i := 0 to |docs|
      invariant forall d <- docs[..i] :: Walk(m, d, d.parent, {d.id}, 1)
    {
      var good := CheckChain(m, docs[i]);
      assert docs[i] in docs;
      if !good {
        return false;
      }
    }
    return true;
  }

  // ------------------------------------------------ what acceptance means

  /** The root is reached within n documents, the first one included. */
  predicate Rooted(m: Index, d: DocRecord, n: nat)
    decreases n
  {
    n > 0 && (d.parent == "" || (d.parent in m && Rooted(m, m[d.parent], n - 1)))
  }

  predicate LinkOk(m: Index, d: DocRecord) {
    d.parent == "" || (d.parent in m && FitsUnder(d, m[d.parent]))
  }

  /** Every parent exists in the same scope, is not deleted before its child, and
      every root is at most five documents away. */
  ghost predicate Forest(docs: seq<DocRecord>) {
    forall d <- docs :: LinkOk(ById(docs), d) && Rooted(ById(docs), d, MAX_DEPTH)
  }

  ghost predicate DistinctIds(docs: seq<DocRecord>) {
    forall i, j :: 0 <= i < j < |docs| ==> docs[i].id != docs[j].id
  }

  lemma {:induction false} WalkIsRooted(m: Index, d: DocRecord, x: DocRecord, seen: set<string>, depth: nat)
    requires 1 <= depth <= MAX_DEPTH && Walk(m, d, x.parent, seen, depth)
    ensures Rooted(m, x, MAX_DEPTH + 1 - depth)
    decreases MAX_DEPTH - depth
  {
    if x.parent != "" {
      WalkIsRooted(m, d, m[x.parent], seen + {x.parent}, depth + 1);
    }
  }

  function Rank(m: Index, d: DocRecord, n: nat): (r: nat)
    requires Rooted(m, d, n)
    ensures r < n
    decreases n
  {
    if d.parent == "" then 0 else 1 + Rank(m, m[d.parent], n - 1)
  }

  lemma {:induction false} RankIsUnique(m: Index, d: DocRecord, n: nat, k: nat)
    requires Rooted(m, d, n) && Rooted(m, d, k)
    ensures Rank(m, d, n) == Rank(m, d, k)
    decreases n
  {
    if d.parent != "" {
      RankIsUnique(m, m[d.parent], n - 1, k - 1);
    }
  }

  lemma {:induction false} RootedLater(m: Index, d: DocRecord, n: nat)
    requires Rooted(m, d, n)
    ensures Rooted(m, d, n + 1)
    decreases n
  {
    if d.parent != "" {
      RootedLater(m, m[d.parent], n - 1);
    }
  }

  lemma {:induction false} ByIdHolds(docs: seq<DocRecord>)
    ensures forall k :: k in ById(docs) ==> ById(docs)[k] in docs && ById(docs)[k].id == k
    ensures forall d <- docs :: d.id in ById(docs)
  {
    if docs != [] {
      var n := |docs| - 1;
      ByIdHolds(docs[..n]);
      assert docs == docs[..n] + [docs[n]];
    }
  }

  lemma {:induction false} ByIdFinds(docs: seq<DocRecord>, i: nat)
    requires i < |docs| && DistinctIds(docs)
    ensures docs[i].id in ById(docs) && ById(docs)[docs[i].id] == docs[i]
    decreases |docs|
  {
    var n := |docs| - 1;
    if i < n {
      assert docs[..n][i] == docs[i];
      ByIdFinds(docs[..n], i);
    }
  }

  lemma AcceptsIsForest(docs: seq<DocRecord>)
    requires Accepts(docs)
    ensures Forest(docs)
  {
    forall d | d in docs
      ensures LinkOk(ById(docs), d) && Rooted(ById(docs), d, MAX_DEPTH)
    {
      WalkIsRooted(ById(docs), d, d, {d.id}, 1);
    }
  }

  /** The id is that of an ancestor of d, at most n steps up. */
  predicate Above(m: Index, d: DocRecord, id: string, n: nat)
    decreases n
  {
    n > 0 && d.parent != "" && (d.parent == id || (d.parent in m && Above(m, m[d.parent], id, n - 1)))
  }

  /** Every ancestor id passed so far is further from the root than the walk stands. */
  ghost predicate Behind(m: Index, passed: set<string>, r: int) {
    forall k <- passed :: k in m && Rooted(m, m[k], MAX_DEPTH) && Rank(m, m[k], MAX_DEPTH) > r
  }

  ghost predicate AllLinked(m: Index) {
    forall k :: k in m ==> LinkOk(m, m[k]) && Rooted(m, m[k], MAX_DEPTH)
  }

  /** On linked documents the walk from x fails only by meeting the start's own id. */
  lemma {:induction false} WalkExactly(m: Index, d: DocRecord, x: DocRecord, passed: set<string>, depth: nat)
    requires 1 <= depth <= MAX_DEPTH && AllLinked(m)
    requires Rooted(m, x, MAX_DEPTH + 1 - depth) && Rooted(m, x, MAX_DEPTH) && LinkOk(m, x)
    requires x.scope == d.scope && (d.deleted || !x.deleted)
    requires Behind(m, passed, Rank(m, x, MAX_DEPTH) - 1)
    ensures Walk(m, d, x.parent, {d.id} + passed, depth) <==> !Above(m, x, d.id, MAX_DEPTH + 1 - depth)
    decreases MAX_DEPTH - depth
  {
    if x.parent != "" {
      var p := m[x.parent];
      RootedLater(m, p, MAX_DEPTH - 1);
      RankIsUnique(m, p, MAX_DEPTH, MAX_DEPTH - 1);
      assert Rank(m, p, MAX_DEPTH) == Rank(m, x, MAX_DEPTH) - 1;
      assert x.parent !in passed;
      var more := passed + {x.parent};
      assert Behind(m, more, Rank(m, p, MAX_DEPTH) - 1);
      assert {d.id} + passed + {x.parent} == {d.id} + more;
      if depth < MAX_DEPTH {
        WalkExactly(m, d, p, more, depth + 1);
      }
    }
  }

  ghost predicate OwnIdAbove(docs: seq<DocRecord>, d: DocRecord) {
    Above(ById(docs), d, d.id, MAX_DEPTH)
  }

  /** The check accepts exactly the forests in which no document has its own id
      among its ancestors, whether or not ids repeat. */
  lemma AcceptsExactly(docs: seq<DocRecord>)
    ensures Accepts(docs) <==> Forest(docs) && forall d <- docs :: !OwnIdAbove(docs, d)
  {
    var m := ById(docs);
    if Accepts(docs) {
      AcceptsIsForest(docs);
    }
    if Forest(docs) {
      ByIdHolds(docs);
      forall d | d in docs
        ensures Walk(m, d, d.parent, {d.id}, 1) <==> !OwnIdAbove(docs, d)
      {
        WalkExactly(m, d, d, {}, 1);
        assert {d.id} + {} == {d.id};
      }
    }
  }

  lemma {:induction false} AboveIsHigher(m: Index, d: DocRecord, id: string, n: nat)
    requires Above(m, d, id, n) && Rooted(m, d, n)
    requires forall k :: k in m ==> Rooted(m, m[k], MAX_DEPTH)
    ensures id in m && Rank(m, m[id], MAX_DEPTH) < Rank(m, d, n)
    decreases n
  {
    var p := m[d.parent];
    if d.parent == id {
      RankIsUnique(m, p, MAX_DEPTH, n - 1);
    } else {
      AboveIsHigher(m, p, id, n - 1);
    }
  }

  /** With distinct ids a forest never has one, so the check accepts exactly the
      forests. */
  lemma AcceptsForests(docs: seq<DocRecord>)
    requires DistinctIds(docs)
    ensures Accepts(docs) <==> Forest(docs)
  {
    AcceptsExactly(docs);
    if Forest(docs) {
      ByIdHolds(docs);
      forall d | d in docs
        ensures !OwnIdAbove(docs, d)
      {
        var i :| 0 <= i < |docs| && docs[i] == d;
        ByIdFinds(docs, i);
        if OwnIdAbove(docs, d) {
          AboveIsHigher(ById(docs), d, d.id, MAX_DEPTH);
        }
      }
    }
  }

  /** Two documents with one id and a cycle through it: the links alone are
      fine, but the walk from the first sees its own id again. */
  lemma DuplicateIdIsRefused()
    ensures var docs := [DocRecord("x", "y", "", false), DocRecord("y", "x", "", false), DocRecord("x", "", "", false)];
      Forest(docs) && !Accepts(docs)
  {
    var x, y, root := DocRecord("x", "y", "", false), DocRecord("y", "x", "", false), DocRecord("x", "", "", false);
    var docs := [x, y, root];
    var m := ById(docs);
    assert docs[..2] == [x, y] && [x, y][..1] == [x] && [x][..0] == [];
    assert ById([x]) == map["x" := x];
    assert ById([x, y]) == map["x" := x, "y" := y];
    assert m == ById([x, y])["x" := root];
    assert Rooted(m, root, 3) && Rooted(m, y, 4) && Rooted(m, x, 5) && Rooted(m, root, 4) && Rooted(m, y, 5) && Rooted(m, root, 5);
    assert !Walk(m, x, "x", {"x", "y"}, 2);
    assert {"x"} + {"y"} == {"x", "y"};
    assert !Walk(m, x, "y", {"x"}, 1);
    assert x in docs;
  }

  /** A chain of documents, each the parent of the one before. */
  ghost predicate Path(m: Index, p: seq<string>) {
    && (forall i :: 0 <= i < |p| ==> p[i] in m)
    && (forall i :: 0 < i < |p| ==> p[i] != "" && p[i] == m[p[i - 1]].parent)
  }

  /** Accepted documents have no cycle and no chain of more than five. */
  lemma {:induction false} PathRanks(m: Index, p: seq<string>, i: nat)
    requires Path(m, p) && i < |p|
    requires forall k :: k in m ==> Rooted(m, m[k], MAX_DEPTH)
    ensures Rank(m, m[p[0]], MAX_DEPTH) == Rank(m, m[p[i]], MAX_DEPTH) + i
  {
    if i > 0 {
      PathRanks(m, p, i - 1);
      var x := m[p[i - 1]];
      RankIsUnique(m, m[p[i]], MAX_DEPTH, MAX_DEPTH - 1);
    }
  }

  lemma AcceptedPaths(docs: seq<DocRecord>, p: seq<string>)
    requires Accepts(docs) && Path(ById(docs), p)
    ensures |p| <= MAX_DEPTH
    ensures forall i, j :: 0 <= i < j < |p| ==> p[i] != p[j]
  {
    var m := ById(docs);
    AcceptsIsForest(docs);
    ByIdHolds(docs);
    forall i | 0 <= i < |p|
      ensures Rank(m, m[p[0]], MAX_DEPTH) == Rank(m, m[p[i]], MAX_DEPTH) + i
    {
      PathRanks(m, p, i);
    }
    if p != [] {
      assert Rank(m, m[p[0]], MAX_DEPTH) == Rank(m, m[p[|p| - 1]], MAX_DEPTH) + |p| - 1;
    }
  }
}
