/** What a retrieval gets out of the shared vector cache: Retrieve in
    backend/internal/chat/chat.go, whatever runs beside it. */
module CacheReaders {
  import opened VectorCache
  import opened CacheProtocol

  /** A reader has one result per row it is done with, under the row's key, and as long
      as nothing was invalidated since it began, all its results are current. */
  ghost predicate ReadsRows<V>(s: State<V>, r: Reader<V>) {
    && r.next == |r.results|
    && (r.rows.None? ==> r.next == 0 && !r.missed)
    && (r.rows.Some? ==> FollowsRows(r.results, r.rows.value) && (r.missed ==> r.next < |r.rows.value|))
    && (r.gen == s.gen ==> AllCurrent(s, r.results))
  }

  ghost predicate FollowsRows<V>(results: seq<(Key, V)>, rows: seq<(Key, V)>) {
    |results| <= |rows| && forall i :: 0 <= i < |results| ==> results[i].0 == rows[i].0
  }

  ghost predicate AllRead<V>(s: State<V>) {
    forall r :: r in s.readers ==> ReadsRows(s, s.readers[r])
  }

  lemma CurrentSnoc<V>(s: State<V>, es: seq<(Key, V)>, e: (Key, V))
    requires AllCurrent(s, es) && Current(s, e)
    ensures AllCurrent(s, es + [e])
  {
    hide Current;
  }

  lemma FollowsNext<V>(results: seq<(Key, V)>, rows: seq<(Key, V)>, v: V)
    requires FollowsRows(results, rows) && |results| < |rows|
    ensures FollowsRows(results + [(rows[|results|].0, v)], rows)
  {
  }

  /** The other readers of a step that leaves rows, writers and generation alone. */
  lemma OthersRead<V>(s: State<V>, t: State<V>, r: nat, reader: Reader<V>)
    requires AllRead(s) && s.db == t.db && s.writers == t.writers && s.gen == t.gen
    requires t.readers == s.readers[r := reader] && ReadsRows(s, reader)
    ensures AllRead(t)
  {
    hide AllCurrent, FollowsRows;
    forall x | x in t.readers ensures ReadsRows(t, t.readers[x]) {
      assert ReadsRows(s, t.readers[x]);
      SameCurrent(s, t, t.readers[x].results);
    }
  }

  lemma LookUpReads<V>(s: State<V>, r: nat)
    requires Coherent(s) && AllRead(s) && Enabled(s, LookUp(r))
    ensures AllRead(Next(s, LookUp(r)))
  {
    hide AllCurrent, Touched, DistinctKeys, FollowsRows, Current;
    var t, reader := Next(s, LookUp(r)), s.readers[r];
    assert ReadsRows(s, reader);
    var k := reader.rows.value[reader.next].0;
    var hit := Found(s.cache, k);
    if hit.Some? {
      HitIsCurrent(s, k);
      FollowsNext(reader.results, reader.rows.value, hit.value);
      if reader.gen == s.gen {
        CurrentSnoc(s, reader.results, (k, hit.value));
      }
    }
    OthersRead(s, t, r, t.readers[r]);
  }

  lemma HitIsCurrent<V>(s: State<V>, k: Key)
    requires AllCurrent(s, s.cache) && Found(s.cache, k).Some?
    ensures Current(s, (k, Found(s.cache, k).value))
  {
    hide Current;
    var i := IndexOf(s.cache, k);
    assert Current(s, s.cache[i]);
    assert s.cache[i] == (k, Found(s.cache, k).value);
  }

  lemma StoreReads<V>(s: State<V>, r: nat)
    requires Coherent(s) && AllRead(s) && Enabled(s, Store(r))
    ensures AllRead(Next(s, Store(r)))
  {
    hide Stored, DistinctKeys, FollowsRows, Current, Found;
    var t, reader := Next(s, Store(r)), s.readers[r];
    assert ReadsRows(s, reader) && ReaderOk(s, reader);
    var (k, v) := reader.rows.value[reader.next];
    FollowsNext(reader.results, reader.rows.value, v);
    if reader.gen == s.gen {
      assert Current(s, reader.rows.value[reader.next]);
      CurrentSnoc(s, reader.results, (k, v));
    }
    hide AllCurrent;
    OthersRead(s, t, r, t.readers[r]);
  }

  lemma WriteReads<V>(s: State<V>, w: nat, docID: string, rows: map<Key, V>)
    requires AllRead(s) && Enabled(s, WriteRows(w, docID, rows))
    ensures AllRead(Next(s, WriteRows(w, docID, rows)))
  {
    hide AllCurrent, FollowsRows, Replaced;
    var t := Next(s, WriteRows(w, docID, rows));
    forall x | x in t.readers ensures ReadsRows(t, t.readers[x]) {
      assert ReadsRows(s, s.readers[x]);
      if s.readers[x].gen == s.gen {
        WriteKeepsCurrent(s, w, docID, rows, s.readers[x].results);
      }
    }
  }

  /** A new generation: no reader that is under way is in it. */
  lemma NewGenerationReads<V>(s: State<V>, t: State<V>)
    requires Coherent(s) && AllRead(s) && t.readers == s.readers && t.gen == s.gen + 1
    ensures AllRead(t)
  {
    hide AllCurrent, FollowsRows, DistinctKeys;
    forall x | x in t.readers ensures ReadsRows(t, t.readers[x]) {
      assert ReadsRows(s, s.readers[x]) && ReaderOk(s, s.readers[x]);
    }
  }

  lemma NextReads<V>(s: State<V>, step: Step<V>)
    requires Coherent(s) && AllRead(s) && Enabled(s, step)
    ensures AllRead(Next(s, step))
  {
    hide Coherent, AllRead;
    var t := Next(s, step);
    match step {
      case ReadGeneration(r) => OthersRead(s, t, r, t.readers[r]);
      case ReadRows(r, rows) =>
        assert ReadsRows(s, s.readers[r]) by { ReaderReads(s, r); }
        OthersRead(s, t, r, t.readers[r]);
      case LookUp(r) => LookUpReads(s, r);
      case Store(r) => StoreReads(s, r);
      case WriteRows(w, docID, rows) => WriteReads(s, w, docID, rows);
      case Invalidate(w) => NewGenerationReads(s, t);
      case FailedSync(docID) => NewGenerationReads(s, t);
    }
  }

  lemma ReaderReads<V>(s: State<V>, r: nat)
    requires AllRead(s) && r in s.readers
    ensures ReadsRows(s, s.readers[r])
  {
  }

  lemma {:induction false} RunReads<V>(s: State<V>, steps: seq<Step<V>>)
    requires Coherent(s) && AllRead(s) && ValidRun(s, steps)
    ensures Coherent(Run(s, steps)) && AllRead(Run(s, steps))
    decreases |steps|
  {
    hide Coherent, AllRead, Next, Enabled;
    if steps != [] {
      NextCoherent(s, steps[0]);
      NextReads(s, steps[0]);
      RunReads(Next(s, steps[0]), steps[1..]);
    }
  }

  ghost predicate Finished<V>(s: State<V>, r: nat) {
    r in s.readers && s.readers[r].rows.Some? && s.readers[r].next == |s.readers[r].rows.value|
  }

  /** Whatever was interleaved, a finished retrieval has one result for each row its query
      returned, in order and under the same key. */
  lemma OneResultPerRow<V>(s: State<V>, steps: seq<Step<V>>, r: nat)
    requires Coherent(s) && AllRead(s) && ValidRun(s, steps) && Finished(Run(s, steps), r)
    ensures var reader := Run(s, steps).readers[r];
            |reader.results| == |reader.rows.value| &&
            forall i :: 0 <= i < |reader.results| ==> reader.results[i].0 == reader.rows.value[i].0
  {
    hide Run, Coherent;
    RunReads(s, steps);
    assert ReadsRows(Run(s, steps), Run(s, steps).readers[r]);
  }

  /** The cache is transparent: with no invalidation since a finished retrieval began and no
      pending writer, its results are the rows of its query, and those of the database. */
  lemma QuietRetrieveIsTransparent<V>(s: State<V>, steps: seq<Step<V>>, r: nat)
    requires Coherent(s) && AllRead(s) && ValidRun(s, steps) && Finished(Run(s, steps), r)
    requires var t := Run(s, steps); t.readers[r].gen == t.gen && t.writers == map[]
    ensures var t := Run(s, steps);
            t.readers[r].results == t.readers[r].rows.value && Queried(t.db, t.readers[r].results)
  {
    hide Run, DistinctKeys;
    RunReads(s, steps);
    var t := Run(s, steps);
    var reader := t.readers[r];
    assert ReadsRows(t, reader) && ReaderOk(t, reader);
    forall i | 0 <= i < |reader.results|
      ensures reader.results[i] == reader.rows.value[i]
      ensures reader.results[i].0 in t.db && t.db[reader.results[i].0] == reader.results[i].1
    {
      assert Current(t, reader.results[i]) && Current(t, reader.rows.value[i]);
      assert !Pending(t, reader.results[i].0.docID);
    }
  }

  /** A missed vector is handed on and, in its own generation, can be looked up by
      everyone from then on; after any invalidation it is not kept. */
  lemma MissIsCachedExactly<V>(s: State<V>, r: nat)
    requires Coherent(s) && Enabled(s, Store(r)) && s.limit > 0
    ensures var t, reader := Next(s, Store(r)), s.readers[r];
            var (k, v) := reader.rows.value[reader.next];
            && t.readers[r].results == reader.results + [(k, v)]
            && (reader.gen == s.gen ==> Found(t.cache, k) == Some(v))
            && (reader.gen != s.gen ==> t.cache == s.cache)
  {
    hide Stored, Found, AllCurrent;
    var reader := s.readers[r];
    var (k, v) := reader.rows.value[reader.next];
    FoundOnceStored(s.cache, s.limit, k, v);
  }

  lemma FoundOnceStored<V>(c: seq<(Key, V)>, limit: nat, k: Key, v: V)
    requires DistinctKeys(c) && |c| <= limit && limit > 0
    ensures Found(Stored(c, limit, k, v), k) == Some(v)
  {
    hide DistinctKeys;
    StoredKeepsRecent(c, limit, k, v);
    var s := Stored(c, limit, k, v);
    assert s != [] && s[0] == (k, v);
  }

  /** A lookup finds exactly the keys that are cached, and moves the one it found to the
      front without changing what is cached or the order of the rest. */
  lemma HitMovesToFront<V>(s: State<V>, r: nat)
    requires Coherent(s) && Enabled(s, LookUp(r))
    ensures var t, reader := Next(s, LookUp(r)), s.readers[r];
            var k := reader.rows.value[reader.next].0;
            if exists i :: 0 <= i < |s.cache| && s.cache[i].0 == k then
              exists i :: 0 <= i < |s.cache| && s.cache[i].0 == k && MovedFront(s.cache, t.cache, i)
                && t.readers[r].results == reader.results + [s.cache[i]]
            else t.cache == s.cache && t.readers[r] == reader.(missed := true)
  {
    hide AllCurrent, DistinctKeys;
    var t, reader := Next(s, LookUp(r)), s.readers[r];
    var k := reader.rows.value[reader.next].0;
    var i := IndexOf(s.cache, k);
    if i != -1 {
      assert (k, s.cache[i].1) == s.cache[i];
      TouchedMoves(s.cache, k);
    }
  }

  ghost predicate MovedFront<V>(before: seq<(Key, V)>, after: seq<(Key, V)>, i: nat)
    requires i < |before|
  {
    |after| == |before| && forall j :: 0 <= j < |after| ==> after[j] == before[if j == 0 then i else if j <= i then j - 1 else j]
  }

  lemma TouchedMoves<V>(c: seq<(Key, V)>, k: Key)
    requires IndexOf(c, k) != -1
    ensures MovedFront(c, Touched(c, k), IndexOf(c, k))
  {
    var i := IndexOf(c, k);
    forall j | 0 <= j < |c| ensures |Touched(c, k)| == |c| && Touched(c, k)[j] == c[Shifted(i, j)] {
      TouchedAt(c, i, j);
    }
  }

  /** A write leaves exactly the given rows of its document, and every other row as it
      was; the cache learns of it only by the invalidation. */
  lemma WriteReplacesRows<V>(s: State<V>, w: nat, docID: string, rows: map<Key, V>, k: Key)
    requires Enabled(s, WriteRows(w, docID, rows))
    ensures var t := Next(s, WriteRows(w, docID, rows));
            && t.cache == s.cache && t.gen == s.gen && Pending(t, docID)
            && (k.docID == docID ==> (k in t.db <==> k in rows) && (k in rows ==> t.db[k] == rows[k]))
            && (k.docID != docID ==> (k in t.db <==> k in s.db) && (k in s.db ==> t.db[k] == s.db[k]))
  {
    var t := Next(s, WriteRows(w, docID, rows));
    assert w in t.writers && t.writers[w] == docID;
  }
}
