/** Readers and writers of the shared vector cache, interleaved in any order:
    Retrieve and SyncDocEmbeddings in backend/internal/chat/chat.go. Each lock
    section and each database transaction is one step. */
module CacheProtocol {
  import opened VectorCache

  /** A running Retrieve: the generation it read first, then its rows, then how far it is. */
  datatype Reader<V> = Reader(gen: nat, rows: Option<seq<(Key, V)>>, next: nat, missed: bool, results: seq<(Key, V)>)

  datatype State<V> = State(
    db: map<Key, V>,
    cache: seq<(Key, V)>,
    limit: nat,
    gen: nat,
    readers: map<nat, Reader<V>>,
    writers: map<nat, string>)  // document of each writer that has written and not yet invalidated

  datatype Step<V> =
    | ReadGeneration(reader: nat)
    | ReadRows(reader: nat, rows: seq<(Key, V)>)
    | LookUp(reader: nat)
    | Store(reader: nat)
    | WriteRows(writer: nat, docID: string, vectors: map<Key, V>)
    | Invalidate(writer: nat)
    | FailedSync(docID: string)  // nothing written, invalidated all the same

  predicate CanLookUp<V>(s: State<V>, r: nat) {
    r in s.readers && s.readers[r].rows.Some? && s.readers[r].next < |s.readers[r].rows.value| && !s.readers[r].missed
  }

  predicate CanStore<V>(s: State<V>, r: nat) {
    r in s.readers && s.readers[r].rows.Some? && s.readers[r].next < |s.readers[r].rows.value| && s.readers[r].missed
  }

  /** The rows are some of the rows of the database, as one query returns them. */
  ghost predicate Queried<V>(db: map<Key, V>, rows: seq<(Key, V)>) {
    forall i :: 0 <= i < |rows| ==> rows[i].0 in db && db[rows[i].0] == rows[i].1
  }

  /** The step may happen in this state. */
  ghost predicate Enabled<V>(s: State<V>, step: Step<V>) {
    match step
    case ReadGeneration(r) => r !in s.readers
    case ReadRows(r, rows) => r in s.readers && s.readers[r].rows.None? && Queried(s.db, rows)
    case LookUp(r) => CanLookUp(s, r)
    case Store(r) => CanStore(s, r)
    case WriteRows(w, doc, rows) => w !in s.writers && forall k :: k in rows ==> k.docID == doc
    case Invalidate(w) => w in s.writers
    case FailedSync(doc) => true
  }

  function Replaced<V>(db: map<Key, V>, docID: string, rows: map<Key, V>): map<Key, V> {
    (map k | k in db && k.docID != docID :: db[k]) + rows
  }

  ghost function Next<V>(s: State<V>, step: Step<V>): State<V>
    requires Enabled(s, step)
  {
    match step
    case ReadGeneration(r) => s.(readers := s.readers[r := Reader(s.gen, None, 0, false, [])])
    case ReadRows(r, rows) => s.(readers := s.readers[r := s.readers[r].(rows := Some(rows))])
    case LookUp(r) =>
      var reader := s.readers[r];
      var k := reader.rows.value[reader.next].0;
      var hit := Found(s.cache, k);
      if hit.Some? then
        s.(cache := Touched(s.cache, k),
           readers := s.readers[r := reader.(next := reader.next + 1, results := reader.results + [(k, hit.value)])])
      else s.(readers := s.readers[r := reader.(missed := true)])
    case Store(r) =>
      var reader := s.readers[r];
      var (k, v) := reader.rows.value[reader.next];
      s.(cache := if reader.gen == s.gen then Stored(s.cache, s.limit, k, v) else s.cache,
         readers := s.readers[r := reader.(next := reader.next + 1, missed := false, results := reader.results + [(k, v)])])
    case WriteRows(w, doc, rows) => s.(db := Replaced(s.db, doc, rows), writers := s.writers[w := doc])
    case Invalidate(w) =>
      s.(gen := s.gen + 1, cache := Dropped(s.cache, s.writers[w]), writers := s.writers - {w})
    case FailedSync(doc) => s.(gen := s.gen + 1, cache := Dropped(s.cache, doc))
  }

  ghost predicate ValidRun<V>(s: State<V>, steps: seq<Step<V>>)
    decreases |steps|
  {
    steps == [] || (Enabled(s, steps[0]) && ValidRun(Next(s, steps[0]), steps[1..]))
  }

  ghost function Run<V>(s: State<V>, steps: seq<Step<V>>): State<V>
    requires ValidRun(s, steps)
    decreases |steps|
  {
    if steps == [] then s else Run(Next(s, steps[0]), steps[1..])
  }

  // ------------------------------------------------------------------ coherence

  /** A writer for the document has written and not yet invalidated. */
  ghost predicate Pending<V>(s: State<V>, docID: string) {
    exists w :: w in s.writers && s.writers[w] == docID
  }

  ghost predicate Current<V>(s: State<V>, e: (Key, V)) {
    Pending(s, e.0.docID) || (e.0 in s.db && s.db[e.0] == e.1)
  }

  ghost predicate AllCurrent<V>(s: State<V>, es: seq<(Key, V)>) {
    forall i :: 0 <= i < |es| ==> Current(s, es[i])
  }

  ghost predicate ReaderOk<V>(s: State<V>, r: Reader<V>) {
    && r.gen <= s.gen
    && (r.rows.Some? && r.gen == s.gen ==> AllCurrent(s, r.rows.value))
  }

  ghost predicate Coherent<V>(s: State<V>) {
    && AllCurrent(s, s.cache)
    && DistinctKeys(s.cache) && |s.cache| <= s.limit
    && forall r :: r in s.readers ==> ReaderOk(s, s.readers[r])
  }

  lemma WriteKeepsCurrent<V>(s: State<V>, w: nat, docID: string, rows: map<Key, V>, es: seq<(Key, V)>)
    requires Enabled(s, WriteRows(w, docID, rows)) && AllCurrent(s, es)
    ensures AllCurrent(Next(s, WriteRows(w, docID, rows)), es)
  {
    var s' := Next(s, WriteRows(w, docID, rows));
    assert w in s'.writers && s'.writers[w] == docID;
    forall i | 0 <= i < |es| ensures Current(s', es[i]) {
      assert Current(s, es[i]);
      if Pending(s, es[i].0.docID) {
        var x :| x in s.writers && s.writers[x] == es[i].0.docID;
        assert x in s'.writers && s'.writers[x] == es[i].0.docID;
      }
    }
  }

  lemma InvalidateKeepsCurrent<V>(s: State<V>, w: nat, es: seq<(Key, V)>)
    requires Enabled(s, Invalidate(w)) && AllCurrent(s, es)
    ensures AllCurrent(Next(s, Invalidate(w)), Dropped(es, s.writers[w]))
  {
    var s', left := Next(s, Invalidate(w)), Dropped(es, s.writers[w]);
    forall i | 0 <= i < |left| ensures Current(s', left[i]) {
      DroppedMember(es, s.writers[w], left[i]);
      var j :| 0 <= j < |es| && es[j] == left[i];
      assert Current(s, es[j]);
      if Pending(s, left[i].0.docID) {
        var x :| x in s.writers && s.writers[x] == left[i].0.docID;
        assert x in s'.writers && s'.writers[x] == left[i].0.docID;
      }
    }
  }

  lemma StoreKeepsCurrent<V>(s: State<V>, k: Key, v: V)
    requires AllCurrent(s, s.cache) && Current(s, (k, v))
    ensures AllCurrent(s, Stored(s.cache, s.limit, k, v))
  {
    hide Current;
    var c := Stored(s.cache, s.limit, k, v);
    forall i | 0 <= i < |c| ensures Current(s, c[i]) {
      assert i == 0 || c[i] in s.cache;
    }
  }

  lemma TouchKeepsCurrent<V>(s: State<V>, k: Key)
    requires AllCurrent(s, s.cache)
    ensures AllCurrent(s, Touched(s.cache, k))
  {
    hide Current;
    var c := Touched(s.cache, k);
    forall i | 0 <= i < |c| ensures Current(s, c[i]) {
      assert c[i] in s.cache;
    }
  }

  /** Currency looks only at the rows and the writers. */
  lemma SameCurrent<V>(s: State<V>, t: State<V>, es: seq<(Key, V)>)
    requires s.db == t.db && s.writers == t.writers
    ensures AllCurrent(s, es) <==> AllCurrent(t, es)
  {
    assert forall e: (Key, V) :: Current(s, e) <==> Current(t, e);
  }

  lemma ReadersOk<V>(s: State<V>, t: State<V>, r: nat, reader: Reader<V>)
    requires Coherent(s) && s.db == t.db && s.writers == t.writers && s.gen == t.gen
    requires t.readers == s.readers[r := reader] && ReaderOk(s, reader)
    ensures forall x :: x in t.readers ==> ReaderOk(t, t.readers[x])
  {
    hide AllCurrent;
    forall x | x in t.readers ensures ReaderOk(t, t.readers[x]) {
      assert ReaderOk(s, t.readers[x]);
      if t.readers[x].rows.Some? {
        SameCurrent(s, t, t.readers[x].rows.value);
      }
    }
  }

  lemma QueriedIsCurrent<V>(s: State<V>, rows: seq<(Key, V)>)
    requires Queried(s.db, rows)
    ensures AllCurrent(s, rows)
  {
  }

  lemma LookUpCoherent<V>(s: State<V>, r: nat)
    requires Coherent(s) && Enabled(s, LookUp(r))
    ensures Coherent(Next(s, LookUp(r)))
  {
    hide AllCurrent, Touched, DistinctKeys, Found;
    var t := Next(s, LookUp(r));
    var k := s.readers[r].rows.value[s.readers[r].next].0;
    assert ReaderOk(s, t.readers[r]);
    ReadersOk(s, t, r, t.readers[r]);
    TouchKeepsCurrent(s, k);
    TouchedShape(s.cache, k);
    SameCurrent(s, t, t.cache);
  }

  lemma StoreCoherent<V>(s: State<V>, r: nat)
    requires Coherent(s) && Enabled(s, Store(r))
    ensures Coherent(Next(s, Store(r)))
  {
    hide Stored, DistinctKeys, Current;
    var t, reader := Next(s, Store(r)), s.readers[r];
    var (k, v) := reader.rows.value[reader.next];
    assert ReaderOk(s, reader) && ReaderOk(s, t.readers[r]);
    ReadersOk(s, t, r, t.readers[r]);
    if reader.gen == s.gen {
      StoreKeepsCurrent(s, k, v);
      StoredShape(s.cache, s.limit, k, v);
    }
    SameCurrent(s, t, t.cache);
  }

  lemma WriteCoherent<V>(s: State<V>, w: nat, docID: string, rows: map<Key, V>)
    requires Coherent(s) && Enabled(s, WriteRows(w, docID, rows))
    ensures Coherent(Next(s, WriteRows(w, docID, rows)))
  {
    hide AllCurrent, DistinctKeys, Replaced;
    var t := Next(s, WriteRows(w, docID, rows));
    WriteKeepsCurrent(s, w, docID, rows, s.cache);
    forall x | x in t.readers ensures ReaderOk(t, t.readers[x]) {
      assert ReaderOk(s, s.readers[x]);
      if t.readers[x].rows.Some? && t.readers[x].gen == s.gen {
        WriteKeepsCurrent(s, w, docID, rows, t.readers[x].rows.value);
      }
    }
  }

  lemma InvalidateCoherent<V>(s: State<V>, w: nat)
    requires Coherent(s) && Enabled(s, Invalidate(w))
    ensures Coherent(Next(s, Invalidate(w)))
  {
    hide AllCurrent, DistinctKeys, Dropped;
    var t := Next(s, Invalidate(w));
    InvalidateKeepsCurrent(s, w, s.cache);
    DroppedShape(s.cache, s.writers[w]);
    forall x | x in t.readers ensures ReaderOk(t, t.readers[x]) {
      assert ReaderOk(s, s.readers[x]);
    }
  }

  lemma FailedCoherent<V>(s: State<V>, docID: string)
    requires Coherent(s)
    ensures Coherent(Next(s, FailedSync(docID)))
  {
    hide DistinctKeys, Dropped, Current;
    var t := Next(s, FailedSync(docID));
    DroppedShape(s.cache, docID);
    forall i | 0 <= i < |t.cache| ensures Current(s, t.cache[i]) {
      DroppedMember(s.cache, docID, t.cache[i]);
    }
    SameCurrent(s, t, t.cache);
    forall x | x in t.readers ensures ReaderOk(t, t.readers[x]) {
      assert ReaderOk(s, s.readers[x]);
    }
  }

  lemma NextCoherent<V>(s: State<V>, step: Step<V>)
    requires Coherent(s) && Enabled(s, step)
    ensures Coherent(Next(s, step))
  {
    hide AllCurrent, DistinctKeys;
    var t := Next(s, step);
    match step {
      case ReadGeneration(r) =>
        ReadersOk(s, t, r, t.readers[r]);
        SameCurrent(s, t, t.cache);
      case ReadRows(r, rows) =>
        assert ReaderOk(s, s.readers[r]);
        QueriedIsCurrent(s, rows);
        ReadersOk(s, t, r, t.readers[r]);
        SameCurrent(s, t, t.cache);
      case LookUp(r) => LookUpCoherent(s, r);
      case Store(r) => StoreCoherent(s, r);
      case WriteRows(w, docID, rows) => WriteCoherent(s, w, docID, rows);
      case Invalidate(w) => InvalidateCoherent(s, w);
      case FailedSync(docID) => FailedCoherent(s, docID);
    }
  }

  /** newVectorCache over any database is coherent. */
  lemma EmptyIsCoherent<V>(db: map<Key, V>, limit: nat)
    ensures Coherent(State(db, [], limit, 0, map[], map[]))
  {
  }

  /** Over every interleaving: each cached vector equals the stored one for its key
      unless a writer of that document is between its write and its invalidation,
      keys stay distinct, and the cache never exceeds its limit. */
  lemma {:induction false} RunIsCoherent<V>(s: State<V>, steps: seq<Step<V>>)
    requires Coherent(s) && ValidRun(s, steps)
    ensures Coherent(Run(s, steps))
    decreases |steps|
  {
    hide Coherent, Next, Enabled;
    if steps != [] {
      NextCoherent(s, steps[0]);
      RunIsCoherent(Next(s, steps[0]), steps[1..]);
    }
  }

  /** In every reachable state, a hit on a document without pending writer returns
      exactly what the database holds. */
  lemma HitsAreCurrent<V>(s: State<V>, steps: seq<Step<V>>, k: Key)
    requires Coherent(s) && ValidRun(s, steps)
    requires var t := Run(s, steps); Found(t.cache, k).Some? && !Pending(t, k.docID)
    ensures var t := Run(s, steps); k in t.db && Found(t.cache, k) == Some(t.db[k])
  {
    hide Run, Pending;
    RunIsCoherent(s, steps);
    var t := Run(s, steps);
    var i := IndexOf(t.cache, k);
    assert Current(t, t.cache[i]);
  }

  /** Once every writer has invalidated, the whole cache is a part of the database. */
  lemma QuietCacheIsCurrent<V>(s: State<V>, steps: seq<Step<V>>)
    requires Coherent(s) && ValidRun(s, steps) && Run(s, steps).writers == map[]
    ensures var t := Run(s, steps); Queried(t.db, t.cache)
  {
    hide Run;
    RunIsCoherent(s, steps);
    var t := Run(s, steps);
    forall i | 0 <= i < |t.cache| ensures t.cache[i].0 in t.db && t.db[t.cache[i].0] == t.cache[i].1 {
      assert Current(t, t.cache[i]);
    }
  }
}
