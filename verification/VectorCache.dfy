/** The bounded least-recently-used cache of section vectors:
    backend/internal/chat/vectorcache.go. */
module VectorCache {
  import Lines

  datatype Option<+T> = None | Some(value: T)
  datatype Key = Key(docID: string, sectionKey: string)

  // A cache is seen as its entries, most recently used first.

  ghost predicate DistinctKeys<V>(c: seq<(Key, V)>) {
    forall i, j :: 0 <= i < j < |c| ==> c[i].0 != c[j].0
  }

  function IndexOf<V>(c: seq<(Key, V)>, k: Key): (r: int)
    ensures r == -1 ==> forall i :: 0 <= i < |c| ==> c[i].0 != k
    ensures r != -1 ==> 0 <= r < |c| && c[r].0 == k
  {
    if c == [] then -1
    else if c[0].0 == k then 0
    else
      var r := IndexOf(c[1..], k);
      if r == -1 then -1 else r + 1
  }

  function Without<V>(c: seq<(Key, V)>, i: nat): seq<(Key, V)>
    requires i < |c|
  {
    c[..i] + c[i + 1..]
  }

  /** get: the vector, and the entry moved to the front. */
  function Touched<V>(c: seq<(Key, V)>, k: Key): seq<(Key, V)> {
    var i := IndexOf(c, k);
    if i == -1 then c else [c[i]] + Without(c, i)
  }

  function Found<V>(c: seq<(Key, V)>, k: Key): Option<V> {
    var i := IndexOf(c, k);
    if i == -1 then None else Some(c[i].1)
  }

  /** put, once its generation has been accepted. */
  function Stored<V>(c: seq<(Key, V)>, limit: nat, k: Key, v: V): seq<(Key, V)> {
    var i := IndexOf(c, k);
    if i != -1 then [(k, v)] + Without(c, i)
    else if |c| + 1 > limit then ([(k, v)] + c)[..limit]
    else [(k, v)] + c
  }

  /** invalidateDoc: what is left of the entries. */
  function Dropped<V>(c: seq<(Key, V)>, docID: string): seq<(Key, V)> {
    if c == [] then [] else DropEntry(c[0], docID) + Dropped(c[1..], docID)
  }

  function DropEntry<V>(e: (Key, V), docID: string): seq<(Key, V)> {
    if e.0.docID == docID then [] else [e]
  }

  // -------------------------------------------------------- laws of the recency list

  lemma {:induction false} DroppedMember<V>(c: seq<(Key, V)>, docID: string, e: (Key, V))
    ensures e in Dropped(c, docID) <==> e in c && e.0.docID != docID
  {
    if c != [] {
      DroppedMember(c[1..], docID, e);
      assert c == [c[0]] + c[1..];
    }
  }

  lemma {:induction false} DroppedShape<V>(c: seq<(Key, V)>, docID: string)
    requires DistinctKeys(c)
    ensures DistinctKeys(Dropped(c, docID)) && |Dropped(c, docID)| <= |c|
  {
    if c != [] {
      DroppedShape(c[1..], docID);
      var rest := Dropped(c[1..], docID);
      forall i | 0 <= i < |rest| ensures rest[i].0 != c[0].0 {
        DroppedMember(c[1..], docID, rest[i]);
        var j :| 0 <= j < |c[1..]| && c[1..][j] == rest[i];
        assert c[j + 1].0 != c[0].0;
      }
    }
  }

  lemma ConsDistinct<V>(e: (Key, V), c: seq<(Key, V)>)
    requires DistinctKeys(c) && forall i :: 0 <= i < |c| ==> c[i].0 != e.0
    ensures DistinctKeys([e] + c)
  {
  }

  lemma WithoutDistinct<V>(c: seq<(Key, V)>, i: nat)
    requires DistinctKeys(c) && i < |c|
    ensures DistinctKeys(Without(c, i))
    ensures forall j :: 0 <= j < |Without(c, i)| ==> Without(c, i)[j].0 != c[i].0
  {
    var w := Without(c, i);
    assert |w| == |c| - 1;
    forall j | 0 <= j < |w| ensures w[j] == c[if j < i then j else j + 1] {
    }
  }

  lemma StoredShape<V>(c: seq<(Key, V)>, limit: nat, k: Key, v: V)
    requires DistinctKeys(c) && |c| <= limit
    ensures DistinctKeys(Stored(c, limit, k, v)) && |Stored(c, limit, k, v)| <= limit
  {
    hide DistinctKeys, Without;
    var i := IndexOf(c, k);
    if i == -1 {
      ConsDistinct((k, v), c);
      if |c| + 1 > limit {
        PrefixDistinct([(k, v)] + c, limit);
      }
    } else {
      WithoutDistinct(c, i);
      WithoutLength(c, i);
      ConsDistinct((k, v), Without(c, i));
    }
  }

  lemma PrefixDistinct<V>(c: seq<(Key, V)>, n: nat)
    requires DistinctKeys(c) && n <= |c|
    ensures DistinctKeys(c[..n])
  {
  }

  lemma WithoutLength<V>(c: seq<(Key, V)>, i: nat)
    requires i < |c|
    ensures |Without(c, i)| == |c| - 1
  {
  }

  lemma TouchedShape<V>(c: seq<(Key, V)>, k: Key)
    requires DistinctKeys(c)
    ensures DistinctKeys(Touched(c, k)) && |Touched(c, k)| == |c|
    ensures forall e :: e in Touched(c, k) <==> e in c
  {
    var i := IndexOf(c, k);
    if i != -1 {
      var t := Touched(c, k);
      forall e ensures e in t <==> e in c {
        if e in c {
          var j :| 0 <= j < |c| && c[j] == e;
          assert if j == i then t[0] == e else if j < i then t[j + 1] == e else t[j] == e;
        }
      }
    }
  }

  /** Storing a key makes it the most recent; of the other entries only the least
      recently used may be lost, and the rest keep their order. */
  lemma StoredKeepsRecent<V>(c: seq<(Key, V)>, limit: nat, k: Key, v: V)
    requires DistinctKeys(c) && |c| <= limit && limit > 0
    ensures var s := Stored(c, limit, k, v);
            && s[0] == (k, v)
            && var others := if IndexOf(c, k) == -1 then c else Without(c, IndexOf(c, k));
               && s[1..] <= others
               && (s[1..] != others ==> |s| == limit && |others| == |s|)
  {
  }

  lemma {:induction false} IndexOfAt<V>(c: seq<(Key, V)>, i: nat)
    requires DistinctKeys(c) && i < |c|
    ensures IndexOf(c, c[i].0) == i
  {
  }

  /** Overwriting an entry and moving it to the front is one store. */
  lemma UpdateThenMove<V>(c: seq<(Key, V)>, i: nat, limit: nat, k: Key, v: V)
    requires DistinctKeys(c) && i < |c| && c[i].0 == k
    ensures Touched(c[i := (k, v)], k) == Stored(c, limit, k, v)
  {
    IndexOfAt(c, i);
    var d := c[i := (k, v)];
    assert DistinctKeys(d);
    IndexOfAt(d, i);
    assert d[..i] == c[..i] && d[i + 1..] == c[i + 1..];
  }

  lemma {:induction false} DroppedConcat<V>(a: seq<(Key, V)>, b: seq<(Key, V)>, docID: string)
    ensures Dropped(a + b, docID) == Dropped(a, docID) + Dropped(b, docID)
  {
    hide DropEntry;
    if a == [] {
      assert a + b == b;
    } else {
      DroppedConcat(a[1..], b, docID);
      Lines.Tail(a, b);
      Lines.Assoc(DropEntry(a[0], docID), Dropped(a[1..], docID), Dropped(b, docID));
    }
  }

  lemma DropOne<V>(c: seq<(Key, V)>, i: nat, docID: string)
    requires i < |c| && c[i].0.docID == docID
    ensures Dropped(Without(c, i), docID) == Dropped(c, docID)
  {
    var a, b := c[..i], c[i + 1..];
    assert c == a + ([c[i]] + b);
    DroppedConcat(a, b, docID);
    DroppedConcat(a, [c[i]] + b, docID);
    assert ([c[i]] + b)[1..] == b;
  }

  lemma {:induction false} NothingDropped<V>(c: seq<(Key, V)>, docID: string)
    requires forall i :: 0 <= i < |c| ==> c[i].0.docID != docID
    ensures Dropped(c, docID) == c
  {
    if c != [] {
      NothingDropped(c[1..], docID);
    }
  }

  // ------------------------------------------------------------------- the class

  class Element<V> {
    const key: Key
    var vector: V

    constructor (key: Key, vector: V)
      ensures this.key == key && this.vector == vector
    {
      this.key, this.vector := key, vector;
    }
  }

  ghost predicate Indexed<V>(ll: seq<Element<V>>, entries: map<Key, Element<V>>) {
    && (forall i, j :: 0 <= i < j < |ll| ==> ll[i].key != ll[j].key)
    && (forall i :: 0 <= i < |ll| ==> ll[i].key in entries && entries[ll[i].key] == ll[i])
    && (forall k :: k in entries ==> entries[k] in ll && entries[k].key == k)
  }

  function View<V>(ll: seq<Element<V>>): (c: seq<(Key, V)>)
    reads ll
    ensures |c| == |ll|
  {
    seq(|ll|, i requires 0 <= i < |ll| reads ll => (ll[i].key, ll[i].vector))
  }

  lemma MovedIndexed<V>(ll: seq<Element<V>>, moved: seq<Element<V>>, entries: map<Key, Element<V>>, i: nat)
    requires Indexed(ll, entries) && i < |ll| && moved == [ll[i]] + ll[..i] + ll[i + 1..]
    ensures Indexed(moved, entries)
  {
    forall j | 0 <= j < |moved| ensures moved[j].key in entries && entries[moved[j].key] == moved[j] {
      AtMoved(ll, i, j);
    }
    forall j, m | 0 <= j < m < |moved| ensures moved[j].key != moved[m].key {
      AtMoved(ll, i, j);
      AtMoved(ll, i, m);
    }
    forall k | k in entries ensures entries[k] in moved && entries[k].key == k {
      var j :| 0 <= j < |ll| && ll[j] == entries[k];
      AtMoved(ll, i, if j == i then 0 else if j < i then j + 1 else j);
    }
  }

  lemma PushIndexed<V>(ll: seq<Element<V>>, entries: map<Key, Element<V>>, el: Element<V>)
    requires Indexed(ll, entries) && el.key !in entries
    ensures Indexed([el] + ll, entries[el.key := el])
  {
    var pushed, added := [el] + ll, entries[el.key := el];
    assert pushed[0] == el;
    forall k | k in added ensures added[k] in pushed {
      if k != el.key {
        var j :| 0 <= j < |ll| && ll[j] == entries[k];
        assert pushed[j + 1] == ll[j];
      }
    }
  }

  lemma RemoveIndexed<V>(ll: seq<Element<V>>, entries: map<Key, Element<V>>, i: nat)
    requires Indexed(ll, entries) && i < |ll|
    ensures Indexed(ll[..i] + ll[i + 1..], entries - {ll[i].key})
  {
    var rest, left := ll[..i] + ll[i + 1..], entries - {ll[i].key};
    forall j | 0 <= j < |rest| ensures rest[j].key in left && left[rest[j].key] == rest[j] {
      AtWithout(ll, i, j);
    }
    forall j, m | 0 <= j < m < |rest| ensures rest[j].key != rest[m].key {
      AtWithout(ll, i, j);
      AtWithout(ll, i, m);
    }
    forall k | k in left ensures left[k] in rest && left[k].key == k {
      var j :| 0 <= j < |ll| && ll[j] == entries[k];
      AtWithout(ll, i, if j < i then j else j - 1);
    }
  }

  lemma AtWithout<V>(ll: seq<Element<V>>, i: nat, j: nat)
    requires i < |ll| && j < |ll| - 1
    ensures (ll[..i] + ll[i + 1..])[j] == ll[if j < i then j else j + 1]
  {
  }

  lemma IndexedEntry<V>(ll: seq<Element<V>>, entries: map<Key, Element<V>>, k: Key)
    requires Indexed(ll, entries) && k in entries
    ensures entries[k] in ll && entries[k].key == k
  {
  }

  lemma ViewWithout<V>(c: seq<(Key, V)>, ll: seq<Element<V>>, i: nat)
    requires i < |c| && |ll| == |c| - 1
    requires forall j :: 0 <= j < |ll| ==> (ll[j].key, ll[j].vector) == c[if j < i then j else j + 1]
    ensures View(ll) == Without(c, i)
  {
  }

  lemma ViewDistinct<V>(ll: seq<Element<V>>, entries: map<Key, Element<V>>)
    requires Indexed(ll, entries)
    ensures DistinctKeys(View(ll))
  {
  }

  lemma ViewMoved<V>(c: seq<(Key, V)>, ll: seq<Element<V>>, i: nat)
    requires |ll| == |c| && i < |c| && IndexOf(c, c[i].0) == i
    requires forall j :: 0 <= j < |ll| ==> (ll[j].key, ll[j].vector) == c[Shifted(i, j)]
    ensures View(ll) == Touched(c, c[i].0)
  {
    hide Touched;
    var t := Touched(c, c[i].0);
    TouchedAt(c, i, 0);
    forall j | 0 <= j < |ll| ensures View(ll)[j] == t[j] {
      TouchedAt(c, i, j);
    }
  }

  function Shifted(i: nat, j: nat): nat { if j == 0 then i else if j <= i then j - 1 else j }

  lemma TouchedAt<V>(c: seq<(Key, V)>, i: nat, j: nat)
    requires i < |c| && j < |c| && IndexOf(c, c[i].0) == i
    ensures |Touched(c, c[i].0)| == |c| && Touched(c, c[i].0)[j] == c[Shifted(i, j)]
  {
    hide IndexOf;
    AtMoved(c, i, j);
    assert [c[i]] + c[..i] + c[i + 1..] == [c[i]] + (c[..i] + c[i + 1..]);
  }

  lemma AtMoved<T>(c: seq<T>, i: nat, j: nat)
    requires i < |c| && j < |c|
    ensures ([c[i]] + c[..i] + c[i + 1..])[j] == c[Shifted(i, j)]
  {
  }

  class Cache<V> {
    const limit: nat
    var ll: seq<Element<V>>
    var entries: map<Key, Element<V>>
    var gen: nat

    ghost predicate Valid()
      reads this
    {
      Indexed(ll, entries) && |ll| <= limit
    }

    constructor (limit: nat)
      ensures Valid() && this.limit == limit && ll == [] && gen == 0
    {
      this.limit := limit;
      ll, entries, gen := [], map[], 0;
    }

    method Position(el: Element<V>) returns (i: nat)
      requires el in ll
      ensures i < |ll| && ll[i] == el
    {
      i := 0;
      while ll[i] != el
        invariant i < |ll| && el in ll[i..]
        decreases |ll| - i
      {
        assert ll[i..] == [ll[i]] + ll[i + 1..];
        i := i + 1;
      }
    }

    method MoveToFront(el: Element<V>)
      requires Valid() && el in ll
      modifies `ll
      ensures Valid()
      ensures View(ll) == Touched(old(View(ll)), el.key)
    {
      hide Indexed, Touched;
      var i := Position(el);
      ViewDistinct(ll, entries);
      ghost var c := View(ll);
      IndexOfAt(c, i);
      ll := [el] + ll[..i] + ll[i + 1..];
      ViewMoved(c, ll, i);
      MovedIndexed(old(ll), ll, entries, i);
    }

    method Get(k: Key) returns (r: Option<V>)
      requires Valid()
      modifies `ll
      ensures Valid()
      ensures r == Found(old(View(ll)), k)
      ensures View(ll) == Touched(old(View(ll)), k)
    {
      if k !in entries {
        return None;
      }
      var el := entries[k];
      ghost var i := Position(el);
      IndexOfAt(View(ll), i);
      MoveToFront(el);
      return Some(el.vector);
    }

    method Overwrite(k: Key, v: V)
      requires Valid() && k in entries
      modifies `ll, ll
      ensures Valid()
      ensures View(ll) == Stored(old(View(ll)), limit, k, v)
    {
      hide Touched, Stored, IndexOf;
      var el := entries[k];
      ghost var c := View(ll);
      ghost var i := Position(el);
      el.vector := v;
      assert View(ll) == c[i := (k, v)];
      UpdateThenMove(c, i, limit, k, v);
      MoveToFront(el);
    }

    method PushFront(k: Key, v: V)
      requires Indexed(ll, entries) && k !in entries
      modifies `ll, `entries
      ensures Indexed(ll, entries) && |ll| == old(|ll|) + 1
      ensures View(ll) == [(k, v)] + old(View(ll))
    {
      hide Indexed;
      ghost var c := View(ll);
      var el := new Element(k, v);
      PushIndexed(ll, entries, el);
      entries, ll := entries[k := el], [el] + ll;
      assert View(ll) == [(k, v)] + c;
    }

    method EvictOldest()
      requires Indexed(ll, entries) && ll != []
      modifies `ll, `entries
      ensures Indexed(ll, entries) && |ll| == old(|ll|) - 1
      ensures View(ll) == old(View(ll))[..|ll|]
    {
      hide Indexed;
      var n := |ll| - 1;
      ghost var c := View(ll);
      RemoveIndexed(ll, entries, n);
      assert ll[..n] + ll[n + 1..] == ll[..n];
      entries, ll := entries - {ll[n].key}, ll[..n];
      assert View(ll) == c[..n];
    }

    method Put(k: Key, v: V, g: nat)
      requires Valid()
      modifies this, ll
      ensures Valid() && gen == old(gen)
      ensures View(ll) == if g != gen then old(View(ll)) else Stored(old(View(ll)), limit, k, v)
    {
      if g != gen {
        return;
      }
      if k in entries {
        Overwrite(k, v);
        return;
      }
      ghost var c := View(ll);
      assert IndexOf(c, k) == -1;
      PushFront(k, v);
      ghost var full := [(k, v)] + c;
      while |ll| > limit
        invariant |ll| <= |full| && (|ll| >= limit || |ll| == |full|)
        invariant Indexed(ll, entries)
        invariant View(ll) == full[..|ll|]
        invariant gen == old(gen)
        decreases |ll|
      {
        ghost var was := View(ll);
        EvictOldest();
        assert was[..|ll|] == full[..|ll|];
      }
      assert full[..|full|] == full;
    }

    method RemoveEntry(k: Key, docID: string)
      requires Valid() && k in entries && k.docID == docID
      modifies `ll, `entries
      ensures Valid() && entries == old(entries) - {k}
      ensures Dropped(View(ll), docID) == Dropped(old(View(ll)), docID)
    {
      hide Dropped, Indexed;
      IndexedEntry(ll, entries, k);
      var i := Position(entries[k]);
      ghost var c := View(ll);
      DropOne(c, i, docID);
      RemoveIndexed(ll, entries, i);
      entries, ll := entries - {k}, ll[..i] + ll[i + 1..];
      assert |ll| == |c| - 1;
      ViewWithout(c, ll, i);
    }

    method InvalidateDoc(docID: string)
      requires Valid()
      modifies `gen, `ll, `entries
      ensures Valid()
      ensures gen == old(gen) + 1
      ensures View(ll) == Dropped(old(View(ll)), docID)
    {
      hide Dropped, Indexed;
      gen := gen + 1;
      var left := entries.Keys;
      while left != {}
        invariant Valid() && left <= entries.Keys && gen == old(gen) + 1
        invariant forall k :: k in entries && k !in left ==> k.docID != docID
        invariant Dropped(View(ll), docID) == Dropped(old(View(ll)), docID)
        decreases left
      {
        var k :| k in left;
        left := left - {k};
        if k.docID == docID {
          RemoveEntry(k, docID);
        }
      }
      NoneOfDoc(ll, entries, docID);
      NothingDropped(View(ll), docID);
    }
  }

  lemma NoneOfDoc<V>(ll: seq<Element<V>>, entries: map<Key, Element<V>>, docID: string)
    requires Indexed(ll, entries) && forall k :: k in entries ==> k.docID != docID
    ensures forall i :: 0 <= i < |View(ll)| ==> View(ll)[i].0.docID != docID
  {
  }
}
