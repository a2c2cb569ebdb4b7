/** Placing imported notes in the document tree: layout, nest and store in
    backend/internal/docimport/plan.go, and wikiLayout in wikijs.go which shares
    them. A path is its sequence of segments, so path.Dir drops the last one and
    the empty path is the directory ".". */
module ImportTree {
  import DocTree

  const MAX_DEPTH := DocTree.MAX_DEPTH

  type Path = seq<string>

  function Dir(p: Path): Path
    requires p != []
  {
    p[..|p| - 1]
  }

  datatype Doc = Doc(id: string, parent: string, scope: string)

  /** A note or folder to place: its key, the connector its front matter names
      (or ""), the new id, the other key it is found under (or its own), and the
      index of the note whose text it holds (or -1). */
  datatype Entry = Entry(key: Path, own: string, id: string, alias: Path, note: int)

  /** The entry is looked up by this path, as its key or as the note it took over. */
  predicate Finds(e: Entry, path: Path) { path == e.key || path == e.alias }

  /** What the planner has placed: the documents, where each key and each id is,
      and the depth by id. */
  datatype Plan = Plan(docs: seq<Doc>, at: map<Path, nat>, byId: map<string, nat>, depth: map<string, nat>)

  ghost predicate Indexed(p: Plan) {
    && (forall i :: 0 <= i < |p.docs| ==> p.docs[i].id != "" && p.docs[i].id in p.byId && p.byId[p.docs[i].id] == i)
    && (forall k :: k in p.byId ==> p.byId[k] < |p.docs| && p.docs[p.byId[k]].id == k)
    && (forall k :: k in p.byId ==> k in p.depth)
    && (forall k :: k in p.at ==> p.at[k] < |p.docs|)
  }

  /** Document i is a root at depth 1, or one level below an earlier document of
      its own scope, and no deeper than the limit. */
  ghost predicate Nested(p: Plan, i: nat)
    requires Indexed(p) && i < |p.docs|
  {
    var d := p.docs[i];
    && 1 <= p.depth[d.id] <= MAX_DEPTH
    && (d.parent == "" ==> p.depth[d.id] == 1)
    && (d.parent != "" ==> d.parent in p.byId && p.byId[d.parent] < i)
    && (d.parent != "" ==> p.docs[p.byId[d.parent]].scope == d.scope && p.depth[d.id] == p.depth[d.parent] + 1)
  }

  ghost predicate Tree(p: Plan) {
    Indexed(p) && forall i :: 0 <= i < |p.docs| ==> Nested(p, i)
  }

  /** Where a document goes: below the document of its directory, unless that is
      in another scope (then at the root of its own) or already at the limit
      (then beside it, below the deepest ancestor that may have children). */
  ghost function Place(p: Plan, key: Path, own: string, id: string): (Doc, nat)
    requires Tree(p) && key != []
  {
    if Dir(key) !in p.at then (Doc(id, "", own), 1)
    else
      var parent := p.docs[p.at[Dir(key)]];
      if own != "" && own != parent.scope then (Doc(id, "", own), 1)
      else if p.depth[parent.id] < MAX_DEPTH then (Doc(id, parent.id, parent.scope), p.depth[parent.id] + 1)
      else (Doc(id, parent.parent, parent.scope), MAX_DEPTH)
  }

  function Stored(p: Plan, d: Doc, depth: nat, key: Path): Plan {
    Plan(p.docs + [d], p.at[key := |p.docs|], p.byId[d.id := |p.docs|], p.depth[d.id := depth])
  }

  class Planner {
    var docs: seq<Doc>
    var at: map<Path, nat>
    var byId: map<string, nat>
    var depth: map<string, nat>

    function Now(): Plan
      reads this
    {
      Plan(docs, at, byId, depth)
    }

    constructor ()
      ensures Now() == Plan([], map[], map[], map[])
    {
      docs, at, byId, depth := [], map[], map[], map[];
    }

    /** The climb never misses a parent and ends. */
    method Nest(key: Path, own: string, id: string) returns (d: Doc, level: nat)
      requires Tree(Now()) && key != []
      ensures (d, level) == Place(Now(), key, own, id)
    {
      d, level := Doc(id, "", ""), 1;
      if Dir(key) in at {
        var parent := docs[at[Dir(key)]];
        assert Nested(Now(), at[Dir(key)]);
        d := d.(parent := parent.id, scope := parent.scope);
        level := depth[parent.id] + 1;
      }
      if own != "" && own != d.scope {
        d := d.(parent := "", scope := own);
        level := 1;
      }
      if level > MAX_DEPTH {
        var anc := docs[byId[d.parent]];
        ghost var first := anc;
        assert Nested(Now(), byId[anc.id]);
        while depth[anc.id] >= MAX_DEPTH
          invariant anc.id in byId && docs[byId[anc.id]] == anc
          invariant Nested(Now(), byId[anc.id])
          invariant anc == first || (first.parent == anc.id && depth[anc.id] == MAX_DEPTH - 1)
          decreases depth[anc.id]
        {
          assert Nested(Now(), byId[anc.parent]);
          anc := docs[byId[anc.parent]];
        }
        d := d.(parent := anc.id);
        level := depth[anc.id] + 1;
      }
    }

    method Store(d: Doc, level: nat, key: Path)
      modifies this
      ensures Now() == Stored(old(Now()), d, level, key)
    {
      at := at[key := |docs|];
      byId := byId[d.id := |docs|];
      depth := depth[d.id := level];
      docs := docs + [d];
    }

    /** The placing loop of layout and of wikiLayout. */
    method PlaceAll(entries: seq<Entry>)
      requires Now() == Plan([], map[], map[], map[]) && Placeable(entries)
      modifies this
      ensures Placing(Now(), entries, |entries|)
    {
      hide Placing, Tree, Place, Placeable;
      PlacingNothing(entries);
      for n := 0 to |entries|
        invariant Placing(Now(), entries, n)
      {
        var e := entries[n];
        PlacingNext(Now(), entries, n);
        var d, level := Nest(e.key, e.own, e.id);
        Store(d, level, e.key);
        if e.alias != e.key {
          at := at[e.alias := |docs| - 1];
        }
      }
    }
  }

  ghost predicate Placeable(entries: seq<Entry>) {
    && (forall i :: 0 <= i < |entries| ==> entries[i].key != [] && entries[i].id != "")
    && (forall i, j :: 0 <= i < j < |entries| ==> entries[i].id != entries[j].id)
  }

  /** Each entry's directory is an entry placed before it. */
  ghost predicate ParentsFirst(entries: seq<Entry>) {
    forall i :: 0 <= i < |entries| && |entries[i].key| > 1 ==> exists j :: 0 <= j < i && entries[j].key == Dir(entries[i].key)
  }

  // ------------------------------------------- where the entries have been placed

  /** d is the last of the first n entries that is found under the path. */
  ghost predicate LastFor(entries: seq<Entry>, n: nat, path: Path, d: int)
    requires n <= |entries|
  {
    && 0 <= d < n && Finds(entries[d], path)
    && forall j :: d < j < n ==> !Finds(entries[j], path)
  }

  ghost predicate NoneFor(entries: seq<Entry>, n: nat, path: Path)
    requires n <= |entries|
  {
    forall j :: 0 <= j < n ==> !Finds(entries[j], path)
  }

  /** The document of an entry whose directory is the given document: in another
      scope only for a connector of its own; else below the directory, or, when that
      is at the depth limit, beside it. */
  ghost function Below(e: Entry, directory: Doc, level: nat): Doc {
    if e.own != "" && e.own != directory.scope then Doc(e.id, "", e.own)
    else Doc(e.id, if level < MAX_DEPTH then directory.id else directory.parent, directory.scope)
  }

  ghost predicate WellPlaced(p: Plan, entries: seq<Entry>, k: nat)
    requires k < |p.docs| && k < |entries| && entries[k].key != []
  {
    && (NoneFor(entries, k, Dir(entries[k].key)) ==> p.docs[k] == Doc(entries[k].id, "", entries[k].own))
    && (forall d :: LastFor(entries, k, Dir(entries[k].key), d) ==>
          p.docs[d].id in p.depth && p.docs[k] == Below(entries[k], p.docs[d], p.depth[p.docs[d].id]))
  }

  /** Each path leads to the last entry found under it. */
  ghost predicate LeadsToLast(p: Plan, entries: seq<Entry>, n: nat)
    requires n <= |entries|
  {
    && (forall x :: x in p.at ==> LastFor(entries, n, x, p.at[x]))
    && (forall x :: x !in p.at ==> NoneFor(entries, n, x))
  }

  /** The first n entries are placed. */
  ghost predicate Placing(p: Plan, entries: seq<Entry>, n: nat)
    requires n <= |entries| && Placeable(entries)
  {
    && Tree(p) && |p.docs| == n
    && (forall i :: 0 <= i < n ==> p.docs[i].id == entries[i].id)
    && LeadsToLast(p, entries, n)
    && (forall k :: 0 <= k < n ==> WellPlaced(p, entries, k))
  }

  lemma PlacingNothing(entries: seq<Entry>)
    requires Placeable(entries)
    ensures Placing(Plan([], map[], map[], map[]), entries, 0)
  {
  }

  function Aliased(p: Plan, e: Entry): Plan
    requires p.docs != []
  {
    if e.alias != e.key then p.(at := p.at[e.alias := |p.docs| - 1]) else p
  }

  lemma PlacingNext(p: Plan, entries: seq<Entry>, n: nat)
    requires n < |entries| && Placeable(entries) && Placing(p, entries, n)
    ensures Tree(p) && entries[n].key != []
    ensures var e := entries[n]; var (d, level) := Place(p, e.key, e.own, e.id);
      Placing(Aliased(Stored(p, d, level, e.key), e), entries, n + 1)
  {
    var e := entries[n];
    NewId(p, entries, n);
    PlaceGrows(p, e.key, e.own, e.id);
    NewIsWellPlaced(p, entries, n);
    hide Tree, Place, WellPlaced, LeadsToLast;
    var (d, level) := Place(p, e.key, e.own, e.id);
    AliasKeepsTree(Stored(p, d, level, e.key), e);
    var q := Aliased(Stored(p, d, level, e.key), e);
    assert q.docs == p.docs + [d];
    LastGrows(p, entries, n, d, level);
    forall k: nat | k < n ensures WellPlaced(q, entries, k) {
      StaysWellPlaced(p, q, entries, k);
    }
  }

  lemma NewId(p: Plan, entries: seq<Entry>, n: nat)
    requires n < |entries| && Placeable(entries) && Placing(p, entries, n)
    ensures entries[n].id !in p.byId
  {
    hide WellPlaced, LeadsToLast;
    var id := entries[n].id;
    if id in p.byId {
      assert false;
    }
  }

  lemma LastGrows(p: Plan, entries: seq<Entry>, n: nat, d: Doc, level: nat)
    requires n < |entries| && |p.docs| == n && LeadsToLast(p, entries, n)
    ensures LeadsToLast(Aliased(Stored(p, d, level, entries[n].key), entries[n]), entries, n + 1)
  {
    hide LastFor, NoneFor;
    var q := Aliased(Stored(p, d, level, entries[n].key), entries[n]);
    forall x ensures if x in q.at then LastFor(entries, n + 1, x, q.at[x]) else NoneFor(entries, n + 1, x) {
      OneMore(entries, n, x);
      if !Finds(entries[n], x) {
        assert x in q.at <==> x in p.at;
        assert x in p.at ==> q.at[x] == p.at[x];
      }
    }
  }

  lemma OneMore(entries: seq<Entry>, n: nat, x: Path)
    requires n < |entries|
    ensures Finds(entries[n], x) ==> LastFor(entries, n + 1, x, n)
    ensures !Finds(entries[n], x) ==> (NoneFor(entries, n, x) ==> NoneFor(entries, n + 1, x))
    ensures !Finds(entries[n], x) ==> forall d :: LastFor(entries, n, x, d) ==> LastFor(entries, n + 1, x, d)
  {
  }

  lemma NewIsWellPlaced(p: Plan, entries: seq<Entry>, n: nat)
    requires n < |entries| && Placeable(entries) && Placing(p, entries, n) && entries[n].id !in p.byId
    ensures var e := entries[n]; var (d, level) := Place(p, e.key, e.own, e.id);
      WellPlaced(Aliased(Stored(p, d, level, e.key), e), entries, n)
  {
    hide WellPlaced, LastFor, NoneFor;
    var e := entries[n];
    var (d, level) := Place(p, e.key, e.own, e.id);
    var q := Aliased(Stored(p, d, level, e.key), e);
    assert q.docs[n] == d;
    if Dir(e.key) in p.at {
      var k := p.at[Dir(e.key)];
      assert p.docs[k].id in p.byId;
      assert q.docs[k] == p.docs[k] && q.depth[p.docs[k].id] == p.depth[p.docs[k].id];
      PlacedBelow(q, entries, n, k);
    } else {
      PlacedAtRoot(q, entries, n);
    }
  }

  lemma PlacedBelow(q: Plan, entries: seq<Entry>, n: nat, k: nat)
    requires n < |q.docs| && n < |entries| && entries[n].key != [] && LastFor(entries, n, Dir(entries[n].key), k)
    requires q.docs[k].id in q.depth && q.docs[n] == Below(entries[n], q.docs[k], q.depth[q.docs[k].id])
    ensures WellPlaced(q, entries, n)
  {
    forall d | LastFor(entries, n, Dir(entries[n].key), d) ensures d == k {
    }
  }

  lemma PlacedAtRoot(q: Plan, entries: seq<Entry>, n: nat)
    requires n < |q.docs| && n < |entries| && entries[n].key != [] && NoneFor(entries, n, Dir(entries[n].key))
    requires q.docs[n] == Doc(entries[n].id, "", entries[n].own)
    ensures WellPlaced(q, entries, n)
  {
  }

  lemma StaysWellPlaced(p: Plan, q: Plan, entries: seq<Entry>, k: nat)
    requires k < |p.docs| && k < |entries| && entries[k].key != [] && WellPlaced(p, entries, k)
    requires p.docs <= q.docs && forall id :: id in p.depth && id != q.docs[|q.docs| - 1].id ==> id in q.depth && q.depth[id] == p.depth[id]
    requires forall i :: 0 <= i < |p.docs| ==> p.docs[i].id != q.docs[|q.docs| - 1].id
    ensures WellPlaced(q, entries, k)
  {
    assert forall i :: 0 <= i < |p.docs| ==> q.docs[i] == p.docs[i];
  }

  lemma AliasKeepsTree(p: Plan, e: Entry)
    requires Tree(p) && p.docs != []
    ensures Tree(Aliased(p, e))
  {
    var q := Aliased(p, e);
    assert Indexed(q);
    forall i | 0 <= i < |q.docs|
      ensures Nested(q, i)
    {
      assert Nested(p, i);
    }
  }

  lemma PlaceIsNested(p: Plan, key: Path, own: string, id: string)
    requires Tree(p) && key != [] && id != "" && id !in p.byId
    ensures var (d, level) := Place(p, key, own, id);
      && d.id == id && 1 <= level <= MAX_DEPTH
      && (d.parent == "" ==> level == 1)
      && (d.parent != "" ==> d.parent in p.byId && p.docs[p.byId[d.parent]].scope == d.scope && level == p.depth[d.parent] + 1)
  {
    if Dir(key) in p.at {
      var k := p.at[Dir(key)];
      assert Nested(p, k);
      if p.docs[k].parent != "" {
        assert Nested(p, p.byId[p.docs[k].parent]);
      }
    }
  }

  lemma PlaceGrows(p: Plan, key: Path, own: string, id: string)
    requires Tree(p) && key != [] && id != "" && id !in p.byId
    ensures var (d, level) := Place(p, key, own, id); d.id == id && Tree(Stored(p, d, level, key))
  {
    PlaceIsNested(p, key, own, id);
    hide Place;
    var (d, level) := Place(p, key, own, id);
    StoredIndexed(p, d, level, key);
    var q := Stored(p, d, level, key);
    forall i | 0 <= i < |q.docs|
      ensures Nested(q, i)
    {
      if i < |p.docs| {
        assert Nested(p, i);
      }
    }
  }

  lemma StoredIndexed(p: Plan, d: Doc, level: nat, key: Path)
    requires Indexed(p) && d.id != "" && d.id !in p.byId
    ensures Indexed(Stored(p, d, level, key))
  {
  }

  // --------------------------------------------------- meeting the validator

  ghost function Records(docs: seq<Doc>): seq<DocTree.DocRecord> {
    seq(|docs|, i requires 0 <= i < |docs| => DocTree.DocRecord(docs[i].id, docs[i].parent, docs[i].scope, false))
  }

  lemma {:induction false} NestedIsRooted(p: Plan, i: nat, n: nat)
    requires Tree(p) && i < |p.docs| && n >= p.depth[p.docs[i].id]
    requires DocTree.DistinctIds(Records(p.docs))
    ensures Nested(p, i) && DocTree.Rooted(DocTree.ById(Records(p.docs)), Records(p.docs)[i], n)
    ensures DocTree.LinkOk(DocTree.ById(Records(p.docs)), Records(p.docs)[i])
    decreases n
  {
    var rs := Records(p.docs);
    assert Nested(p, i);
    if p.docs[i].parent != "" {
      var k := p.byId[p.docs[i].parent];
      DocTree.ByIdFinds(rs, k);
      NestedIsRooted(p, k, n - 1);
    }
  }

  /** Every planned tree passes the bundle's parent check. */
  lemma PlannedIsAccepted(p: Plan)
    requires Tree(p)
    ensures DocTree.Accepts(Records(p.docs))
  {
    var rs := Records(p.docs);
    assert DocTree.DistinctIds(rs);
    forall r | r in rs
      ensures DocTree.LinkOk(DocTree.ById(rs), r) && DocTree.Rooted(DocTree.ById(rs), r, DocTree.MAX_DEPTH)
    {
      var i :| 0 <= i < |rs| && rs[i] == r;
      assert Nested(p, i);
      NestedIsRooted(p, i, DocTree.MAX_DEPTH);
    }
    DocTree.AcceptsForests(rs);
  }
}
