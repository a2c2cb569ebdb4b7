/** What a merge conserves, inserts and reports, for every document and render. */
module MergeLaws {
  import opened Lines
  import opened Blocks
  import opened Merging

  ghost predicate Unedited(hash: Hasher, render: seq<Block>) {
    forall i :: 0 <= i < |render| ==> !render[i].Edited(hash)
  }

  ghost predicate DistinctKeys(render: seq<Block>) {
    forall i, j :: 0 <= i < j < |render| ==> render[i].key != render[j].key
  }

  lemma {:induction false} ByKeyUnedited(hash: Hasher, render: seq<Block>)
    requires Unedited(hash, render)
    ensures forall k :: k in ByKey(render) ==> !ByKey(render)[k].Edited(hash)
  {
    forall k | k in ByKey(render) ensures !ByKey(render)[k].Edited(hash) {
      assert ByKey(render)[k] in render;
    }
  }

  lemma {:induction false} ByKeyDistinct(render: seq<Block>, i: nat)
    requires DistinctKeys(render) && i < |render|
    ensures render[i].key in ByKey(render) && ByKey(render)[render[i].key] == render[i]
  {
    var n := |render| - 1;
    if i < n {
      ByKeyDistinct(render[..n], i);
    }
  }

  // ------------------------------------------------------ human work survives

  /** Everything a human wrote: text between blocks and the bodies of edited blocks, in order. */
  function HumanPieces(hash: Hasher, segs: seq<Segment>): seq<string> {
    if segs == [] then [] else PieceOf(hash, segs[0]) + HumanPieces(hash, segs[1..])
  }

  function PieceOf(hash: Hasher, s: Segment): seq<string> {
    match s
    case Text(t) => [t]
    case Gen(b) => if b.Edited(hash) then [b.body] else []
  }

  /** b is a with blank separators added in some places and nothing else changed. */
  ghost predicate SeparatorsAdded(a: seq<string>, b: seq<string>) {
    if b == [] then a == []
    else
      || (a != [] && a[0] == b[0] && SeparatorsAdded(a[1..], b[1..]))
      || (b[0] in ["\n", "\n\n"] && SeparatorsAdded(a, b[1..]))
  }

  lemma {:induction false} PiecesConcat(hash: Hasher, a: seq<Segment>, b: seq<Segment>)
    ensures HumanPieces(hash, a + b) == HumanPieces(hash, a) + HumanPieces(hash, b)
  {
    hide PieceOf;
    if a == [] {
      assert a + b == b;
    } else {
      PiecesConcat(hash, a[1..], b);
      Tail(a, b);
      Assoc(PieceOf(hash, a[0]), HumanPieces(hash, a[1..]), HumanPieces(hash, b));
    }
  }

  lemma {:induction false} SeparatorsRefl(a: seq<string>)
    ensures SeparatorsAdded(a, a)
  {
    if a != [] {
      SeparatorsRefl(a[1..]);
    }
  }

  lemma {:induction false} SeparatorsInsert(a: seq<string>, x: seq<string>, sep: string, y: seq<string>)
    requires SeparatorsAdded(a, x + y) && sep in ["\n", "\n\n"]
    ensures SeparatorsAdded(a, x + [sep] + y)
    decreases |x|
  {
    var b, b' := x + y, x + [sep] + y;
    if x == [] {
      assert b' == [sep] + y && b == y;
      assert b'[1..] == y;
    } else {
      assert b[1..] == x[1..] + y && b'[1..] == x[1..] + [sep] + y;
      if a != [] && a[0] == b[0] && SeparatorsAdded(a[1..], b[1..]) {
        SeparatorsInsert(a[1..], x[1..], sep, y);
      } else {
        SeparatorsInsert(a, x[1..], sep, y);
      }
    }
  }

  lemma PiecesSingle(hash: Hasher, s: Segment)
    ensures HumanPieces(hash, [s]) == PieceOf(hash, s)
  {
    hide PieceOf;
    assert [s][1..] == [];
    assert HumanPieces(hash, [s]) == PieceOf(hash, s) + [];
  }

  lemma KeepOnePieces(hash: Hasher, fm: map<string, Block>, s: Segment)
    requires forall k :: k in fm ==> !fm[k].Edited(hash)
    ensures HumanPieces(hash, KeepOne(hash, fm, s)) == PieceOf(hash, s)
  {
    var one := KeepOne(hash, fm, s);
    if one != [] {
      PiecesSingle(hash, one[0]);
    }
  }

  lemma {:induction false} KeepPieces(hash: Hasher, fm: map<string, Block>, segs: seq<Segment>)
    requires forall k :: k in fm ==> !fm[k].Edited(hash)
    ensures HumanPieces(hash, Keep(hash, fm, segs)) == HumanPieces(hash, segs)
  {
    hide KeepOne, PieceOf;
    if segs != [] {
      KeepPieces(hash, fm, segs[1..]);
      KeepOnePieces(hash, fm, segs[0]);
      PiecesConcat(hash, KeepOne(hash, fm, segs[0]), Keep(hash, fm, segs[1..]));
    }
  }

  lemma InsertPieces(hash: Hasher, a: seq<string>, out: seq<Segment>, at: nat, b: Block)
    requires at <= |out| && !b.Edited(hash)
    requires SeparatorsAdded(a, HumanPieces(hash, out))
    ensures SeparatorsAdded(a, HumanPieces(hash, Insert(out, at, b)))
  {
    hide SeparatorsAdded, Insertion, HumanPieces;
    var x, y := HumanPieces(hash, out[..at]), HumanPieces(hash, out[at..]);
    var ins := Insertion(out, at, b);
    assert out == out[..at] + out[at..];
    PiecesConcat(hash, out[..at], out[at..]);
    PiecesConcat(hash, out[..at], ins);
    PiecesConcat(hash, out[..at] + ins, out[at..]);
    InsertionPieces(hash, out, at, b);
    SeparatorsInsertAll(a, x, HumanPieces(hash, ins), y);
  }

  /** The pieces an insertion may add: one or two blank separators. */
  ghost predicate Blank(p: seq<string>) {
    |p| <= 2 && forall i :: 0 <= i < |p| ==> p[i] in ["\n", "\n\n"]
  }

  lemma SeparatorsInsertAll(a: seq<string>, x: seq<string>, p: seq<string>, y: seq<string>)
    requires SeparatorsAdded(a, x + y) && Blank(p)
    ensures SeparatorsAdded(a, x + p + y)
  {
    hide SeparatorsAdded;
    if p == [] {
      assert x + p + y == x + y;
    } else {
      SeparatorsInsert(a, x, p[0], y);
      if |p| == 1 {
        assert p == [p[0]];
      } else {
        assert x + [p[0]] + y == (x + [p[0]]) + y;
        SeparatorsInsert(a, x + [p[0]], p[1], y);
        assert x + p + y == (x + [p[0]]) + [p[1]] + y;
      }
    }
  }

  lemma InsertionPieces(hash: Hasher, out: seq<Segment>, at: nat, b: Block)
    requires !b.Edited(hash)
    ensures Blank(HumanPieces(hash, Insertion(out, at, b)))
  {
    hide HumanPieces;
    var nl, sep, g := Text("\n"), Text("\n\n"), Gen(b);
    PiecesSingle(hash, nl);
    PiecesSingle(hash, sep);
    PiecesSingle(hash, g);
    PiecesConcat(hash, [g], [nl]);
    PiecesConcat(hash, [nl], [g, nl]);
    PiecesConcat(hash, [sep], [g]);
    assert [g] + [nl] == [g, nl] && [sep] + [g] == [sep, g];
    assert [] + [g, nl] == [g, nl];
  }

  lemma {:induction false} AddFreshPieces(hash: Hasher, a: seq<string>, out: seq<Segment>, prev: set<string>, render: seq<Block>, i: nat)
    requires i <= |render| && Unedited(hash, render)
    requires SeparatorsAdded(a, HumanPieces(hash, out))
    ensures SeparatorsAdded(a, HumanPieces(hash, AddFresh(out, prev, render, i)))
    decreases |render| - i
  {
    hide SeparatorsAdded;
    if i < |render| {
      if render[i].key in Keys(out) || render[i].key in prev {
        AddFreshPieces(hash, a, out, prev, render, i + 1);
      } else {
        var at := Anchor(out, render, i);
        InsertPieces(hash, a, out, at, render[i]);
        AddFreshPieces(hash, a, Insert(out, at, render[i]), prev, render, i + 1);
      }
    }
  }

  /** A merge never discards human work: every piece of text and every edited
      body survives verbatim and in order, and only blank separators are added. */
  lemma MergeKeepsHumanWork(hash: Hasher, existing: seq<Segment>, prev: set<string>, render: seq<Block>)
    requires Unedited(hash, render)
    ensures SeparatorsAdded(HumanPieces(hash, existing), HumanPieces(hash, Merged(hash, existing, prev, render)))
  {
    var fm := ByKey(render);
    ByKeyUnedited(hash, render);
    KeepPieces(hash, fm, existing);
    SeparatorsRefl(HumanPieces(hash, existing));
    AddFreshPieces(hash, HumanPieces(hash, existing), Keep(hash, fm, existing), prev, render, 0);
  }

  // ------------------------------------------------- how often a key appears

  function Count(key: string, segs: seq<Segment>): nat {
    if segs == [] then 0
    else (if segs[0].Gen? && segs[0].block.key == key then 1 else 0) + Count(key, segs[1..])
  }

  lemma {:induction false} CountConcat(key: string, a: seq<Segment>, b: seq<Segment>)
    ensures Count(key, a + b) == Count(key, a) + Count(key, b)
  {
    if a == [] {
      assert a + b == b;
    } else {
      CountConcat(key, a[1..], b);
      assert (a + b)[1..] == a[1..] + b;
    }
  }

  lemma {:induction false} CountKeys(key: string, segs: seq<Segment>)
    ensures Count(key, segs) > 0 <==> key in Keys(segs)
  {
    if segs != [] {
      CountKeys(key, segs[1..]);
      KeysConcat([segs[0]], segs[1..]);
      assert segs == [segs[0]] + segs[1..];
      assert [segs[0]][0] == segs[0];
      assert key in Keys([segs[0]]) <==> segs[0].Gen? && segs[0].block.key == key;
    } else {
      KeysEmpty();
    }
  }

  lemma CountKeepOne(hash: Hasher, fm: map<string, Block>, key: string, s: Segment)
    requires forall k :: k in fm ==> fm[k].key == k
    ensures Count(key, KeepOne(hash, fm, s))
            == if key in fm && s.Gen? && s.block.key == key then 1 else 0
  {
    var one := KeepOne(hash, fm, s);
    if one != [] {
      assert one[1..] == [];
    }
  }

  lemma {:induction false} CountKeep(hash: Hasher, render: seq<Block>, key: string, segs: seq<Segment>)
    ensures Count(key, Keep(hash, ByKey(render), segs)) == if key in ByKey(render) then Count(key, segs) else 0
  {
    hide KeepOne, ByKey;
    var fm := ByKey(render);
    if segs != [] {
      CountKeep(hash, render, key, segs[1..]);
      CountKeepOne(hash, fm, key, segs[0]);
      CountConcat(key, KeepOne(hash, fm, segs[0]), Keep(hash, fm, segs[1..]));
    }
  }

  lemma CountInsert(key: string, out: seq<Segment>, at: nat, b: Block)
    requires at <= |out|
    ensures Count(key, Insert(out, at, b)) == Count(key, out) + if b.key == key then 1 else 0
  {
    var ins := Insertion(out, at, b);
    assert out == out[..at] + out[at..];
    CountConcat(key, out[..at], out[at..]);
    CountConcat(key, out[..at], ins);
    CountConcat(key, out[..at] + ins, out[at..]);
    InsertionCount(key, out, at, b);
  }

  lemma InsertionCount(key: string, out: seq<Segment>, at: nat, b: Block)
    ensures Count(key, Insertion(out, at, b)) == if b.key == key then 1 else 0
  {
    var tail := [Gen(b), Text("\n")];
    CountConcat(key, [Gen(b)], [Text("\n")]);
    assert tail == [Gen(b)] + [Text("\n")];
    CountConcat(key, [Text("\n")], tail);
    CountConcat(key, [Text("\n\n")], [Gen(b)]);
    assert [Text("\n\n"), Gen(b)] == [Text("\n\n")] + [Gen(b)];
    assert [] + tail == tail;
  }

  lemma {:induction false} CountAddFresh(out: seq<Segment>, prev: set<string>, render: seq<Block>, i: nat, key: string)
    requires i <= |render|
    ensures var c := Count(key, AddFresh(out, prev, render, i));
            var rendered := exists k :: i <= k < |render| && render[k].key == key;
            c == if Count(key, out) == 0 && rendered && key !in prev then 1 else Count(key, out)
    decreases |render| - i
  {
    if i < |render| {
      CountKeys(render[i].key, out);
      if render[i].key in Keys(out) || render[i].key in prev {
        CountAddFresh(out, prev, render, i + 1, key);
      } else {
        var at := Anchor(out, render, i);
        CountInsert(key, out, at, render[i]);
        CountAddFresh(Insert(out, at, render[i]), prev, render, i + 1, key);
      }
    }
  }

  /** How many blocks carry a key after a merge: none when the render dropped the
      key, as many as before when it was present or in the previous render (so a
      block the user deleted stays deleted), and exactly one when it is new. */
  lemma MergeKeyCount(hash: Hasher, existing: seq<Segment>, prev: set<string>, render: seq<Block>, key: string)
    ensures var rendered := exists i :: 0 <= i < |render| && render[i].key == key;
            Count(key, Merged(hash, existing, prev, render))
            == if !rendered then 0
               else if Count(key, existing) == 0 && key !in prev then 1
               else Count(key, existing)
  {
    CountKeep(hash, render, key, existing);
    CountAddFresh(Keep(hash, ByKey(render), existing), prev, render, 0, key);
    if key in ByKey(render) {
      var b := ByKey(render)[key];
      assert b in render && b.key == key;
      var i :| 0 <= i < |render| && render[i] == b;
      assert render[i].key == key;
    }
  }

  // ------------------------------------------------ merging again is a no-op

  /** A block that a merge with this render leaves as it is. */
  ghost predicate SettledBlock(hash: Hasher, fm: map<string, Block>, b: Block) {
    b.key in fm && (b.Edited(hash) || b == fm[b.key])
  }

  ghost predicate Settled(hash: Hasher, fm: map<string, Block>, segs: seq<Segment>) {
    forall i :: 0 <= i < |segs| && segs[i].Gen? ==> SettledBlock(hash, fm, segs[i].block)
  }

  lemma {:induction false} KeepSettles(hash: Hasher, fm: map<string, Block>, segs: seq<Segment>)
    requires forall k :: k in fm ==> fm[k].key == k
    ensures Settled(hash, fm, Keep(hash, fm, segs))
  {
    if segs != [] {
      KeepSettles(hash, fm, segs[1..]);
    }
  }

  lemma SettledInsert(hash: Hasher, fm: map<string, Block>, out: seq<Segment>, at: nat, b: Block)
    requires at <= |out| && SettledBlock(hash, fm, b) && Settled(hash, fm, out)
    ensures Settled(hash, fm, Insert(out, at, b))
  {
    hide SettledBlock;
    var r, ins := Insert(out, at, b), Insertion(out, at, b);
    forall i | 0 <= i < |r| && r[i].Gen? ensures SettledBlock(hash, fm, r[i].block) {
      if i < at {
        assert r[i] == out[i];
      } else if i >= at + |ins| {
        assert r[i] == out[i - |ins|];
      } else {
        assert r[i] == ins[i - at];
      }
    }
  }

  /** Of the render's blocks from i on, each that would be added (its key is new,
      and it is the first of its key) is the one the render's index holds. */
  ghost predicate FirstWinsFrom(keys: set<string>, prev: set<string>, render: seq<Block>, i: nat) {
    forall k :: i <= k < |render| && FirstNew(keys, prev, render, i, k) ==> ByKey(render)[render[k].key] == render[k]
  }

  ghost predicate FirstNew(keys: set<string>, prev: set<string>, render: seq<Block>, i: nat, k: nat)
    requires i <= k < |render|
  {
    && render[k].key !in keys && render[k].key !in prev
    && forall j :: i <= j < k ==> render[j].key != render[k].key
  }

  /** Every key that is new to the document has its first block in the render equal
      to the last one, which is the one the index holds. */
  ghost predicate FirstWins(hash: Hasher, existing: seq<Segment>, prev: set<string>, render: seq<Block>) {
    FirstWinsFrom(Keys(Keep(hash, ByKey(render), existing)), prev, render, 0)
  }

  lemma DistinctFirstWins(hash: Hasher, existing: seq<Segment>, prev: set<string>, render: seq<Block>)
    requires DistinctKeys(render)
    ensures FirstWins(hash, existing, prev, render)
  {
    hide ByKey, Keep, Keys, FirstNew;
    forall k | 0 <= k < |render| ensures ByKey(render)[render[k].key] == render[k] {
      ByKeyDistinct(render, k);
    }
  }

  lemma FirstWinsNext(keys: set<string>, prev: set<string>, render: seq<Block>, i: nat, added: bool)
    requires i < |render| && FirstWinsFrom(keys, prev, render, i)
    requires added || render[i].key in keys || render[i].key in prev
    ensures FirstWinsFrom(if added then keys + {render[i].key} else keys, prev, render, i + 1)
  {
    hide ByKey;
    var grown := if added then keys + {render[i].key} else keys;
    forall k | i + 1 <= k < |render| && FirstNew(grown, prev, render, i + 1, k)
      ensures ByKey(render)[render[k].key] == render[k]
    {
      assert render[k].key != render[i].key;
      assert FirstNew(keys, prev, render, i, k);
    }
  }

  lemma {:induction false} AddFreshSettled(hash: Hasher, out: seq<Segment>, prev: set<string>, render: seq<Block>, i: nat)
    requires i <= |render| && FirstWinsFrom(Keys(out), prev, render, i)
    requires Settled(hash, ByKey(render), out)
    ensures Settled(hash, ByKey(render), AddFresh(out, prev, render, i))
    decreases |render| - i
  {
    hide Keys, ByKey, Insert, Settled, FirstWinsFrom;
    if i < |render| {
      if render[i].key in Keys(out) || render[i].key in prev {
        FirstWinsNext(Keys(out), prev, render, i, false);
        AddFreshSettled(hash, out, prev, render, i + 1);
      } else {
        var at := Anchor(out, render, i);
        FirstIsIndexed(Keys(out), prev, render, i);
        SettledInsert(hash, ByKey(render), out, at, render[i]);
        KeysInsert(out, at, render[i]);
        FirstWinsNext(Keys(out), prev, render, i, true);
        AddFreshSettled(hash, Insert(out, at, render[i]), prev, render, i + 1);
      }
    }
  }

  lemma FirstIsIndexed(keys: set<string>, prev: set<string>, render: seq<Block>, i: nat)
    requires i < |render| && FirstWinsFrom(keys, prev, render, i)
    requires render[i].key !in keys && render[i].key !in prev
    ensures render[i].key in ByKey(render) && ByKey(render)[render[i].key] == render[i]
  {
    hide ByKey;
    assert FirstNew(keys, prev, render, i, i);
  }

  /** The first block of a new key is among the merged ones. */
  lemma {:induction false} AddFreshAdds(out: seq<Segment>, prev: set<string>, render: seq<Block>, i: nat, k: nat)
    requires i <= k < |render| && FirstNew(Keys(out), prev, render, i, k)
    ensures Gen(render[k]) in AddFresh(out, prev, render, i)
    decreases |render| - i
  {
    hide Keys, Insert;
    if render[i].key in Keys(out) || render[i].key in prev {
      AddFreshAdds(out, prev, render, i + 1, k);
    } else {
      var at := Anchor(out, render, i);
      var more := Insert(out, at, render[i]);
      KeysInsert(out, at, render[i]);
      if i == k {
        InsertHas(out, at, render[i]);
        AddFreshKeeps(more, prev, render, i + 1, Gen(render[k]));
      } else {
        AddFreshAdds(more, prev, render, i + 1, k);
      }
    }
  }

  lemma InsertHas(out: seq<Segment>, at: nat, b: Block)
    requires at <= |out|
    ensures Gen(b) in Insert(out, at, b)
    ensures forall s :: s in out ==> s in Insert(out, at, b)
  {
    var ins := Insertion(out, at, b);
    assert Gen(b) in ins by {
      assert Gen(b) == ins[0] || Gen(b) == ins[1];
    }
    assert out == out[..at] + out[at..];
  }

  lemma {:induction false} AddFreshKeeps(out: seq<Segment>, prev: set<string>, render: seq<Block>, i: nat, s: Segment)
    requires i <= |render| && s in out
    ensures s in AddFresh(out, prev, render, i)
    decreases |render| - i
  {
    hide Keys, Insert;
    if i < |render| {
      if render[i].key in Keys(out) || render[i].key in prev {
        AddFreshKeeps(out, prev, render, i + 1, s);
      } else {
        var at := Anchor(out, render, i);
        InsertHas(out, at, render[i]);
        AddFreshKeeps(Insert(out, at, render[i]), prev, render, i + 1, s);
      }
    }
  }

  /** A merge is settled exactly when the first block of each new key wins. */
  lemma MergedIsSettledExactly(hash: Hasher, existing: seq<Segment>, prev: set<string>, render: seq<Block>)
    requires Unedited(hash, render)
    ensures Settled(hash, ByKey(render), Merged(hash, existing, prev, render)) <==> FirstWins(hash, existing, prev, render)
  {
    hide Keep, Keys, ByKey;
    var fm, kept := ByKey(render), Keep(hash, ByKey(render), existing);
    var out := AddFresh(kept, prev, render, 0);
    ByKeyKeys(render);
    if FirstWins(hash, existing, prev, render) {
      KeepSettles(hash, fm, existing);
      AddFreshSettled(hash, kept, prev, render, 0);
    }
    if Settled(hash, fm, out) {
      forall k: nat | k < |render| && FirstNew(Keys(kept), prev, render, 0, k)
        ensures fm[render[k].key] == render[k]
      {
        AddFreshAdds(kept, prev, render, 0, k);
        SettledMember(hash, fm, out, render[k]);
      }
    }
  }

  lemma ByKeyKeys(render: seq<Block>)
    ensures forall k :: k in ByKey(render) ==> ByKey(render)[k].key == k
    ensures forall i :: 0 <= i < |render| ==> render[i].key in ByKey(render)
  {
  }

  lemma SettledMember(hash: Hasher, fm: map<string, Block>, segs: seq<Segment>, b: Block)
    requires Settled(hash, fm, segs) && Gen(b) in segs
    ensures SettledBlock(hash, fm, b)
  {
    var i :| 0 <= i < |segs| && segs[i] == Gen(b);
  }

  lemma MergedIsSettled(hash: Hasher, existing: seq<Segment>, prev: set<string>, render: seq<Block>)
    requires DistinctKeys(render)
    ensures Settled(hash, ByKey(render), Merged(hash, existing, prev, render))
  {
    hide Keep, Keys, ByKey, FirstWinsFrom;
    DistinctFirstWins(hash, existing, prev, render);
    ByKeyKeys(render);
    KeepSettles(hash, ByKey(render), existing);
    AddFreshSettled(hash, Keep(hash, ByKey(render), existing), prev, render, 0);
  }

  lemma {:induction false} KeepOfSettled(hash: Hasher, fm: map<string, Block>, segs: seq<Segment>)
    requires Settled(hash, fm, segs)
    ensures Keep(hash, fm, segs) == segs
  {
    if segs != [] {
      KeepOfSettled(hash, fm, segs[1..]);
      assert KeepOne(hash, fm, segs[0]) == [segs[0]];
    }
  }

  lemma {:induction false} AddFreshAllOld(out: seq<Segment>, prev: set<string>, render: seq<Block>, i: nat)
    requires i <= |render|
    requires forall k :: i <= k < |render| ==> render[k].key in prev
    ensures AddFresh(out, prev, render, i) == out
    decreases |render| - i
  {
    if i < |render| {
      AddFreshAllOld(out, prev, render, i + 1);
    }
  }

  function RenderKeys(render: seq<Block>): set<string> {
    set i | 0 <= i < |render| :: render[i].key
  }

  /** Merging the same render into settled segments changes nothing. */
  lemma MergeOfSettled(hash: Hasher, segs: seq<Segment>, render: seq<Block>)
    requires Settled(hash, ByKey(render), segs)
    ensures Merged(hash, segs, RenderKeys(render), render) == segs
  {
    KeepOfSettled(hash, ByKey(render), segs);
    AddFreshAllOld(segs, RenderKeys(render), render, 0);
  }

  lemma {:induction false} ConflictsConcat(hash: Hasher, fm: map<string, Block>, a: seq<Segment>, b: seq<Segment>)
    ensures Conflicts(hash, fm, a + b) == Conflicts(hash, fm, a) + Conflicts(hash, fm, b)
  {
    hide ConflictOne;
    if a == [] {
      assert a + b == b;
    } else {
      ConflictsConcat(hash, fm, a[1..], b);
      Tail(a, b);
      Assoc(ConflictOne(hash, fm, a[0]), Conflicts(hash, fm, a[1..]), Conflicts(hash, fm, b));
    }
  }

  lemma {:induction false} ConflictsOfKeep(hash: Hasher, fm: map<string, Block>, segs: seq<Segment>)
    requires forall k :: k in fm ==> fm[k].key == k && !fm[k].Edited(hash)
    ensures Conflicts(hash, fm, Keep(hash, fm, segs)) == Conflicts(hash, fm, segs)
  {
    hide KeepOne, ConflictOne;
    if segs != [] {
      ConflictsOfKeep(hash, fm, segs[1..]);
      ConflictsConcat(hash, fm, KeepOne(hash, fm, segs[0]), Keep(hash, fm, segs[1..]));
      ConflictsOfKeepOne(hash, fm, segs[0]);
    }
  }

  lemma ConflictsOfKeepOne(hash: Hasher, fm: map<string, Block>, s: Segment)
    requires forall k :: k in fm ==> fm[k].key == k && !fm[k].Edited(hash)
    ensures Conflicts(hash, fm, KeepOne(hash, fm, s)) == ConflictOne(hash, fm, s)
  {
    var one := KeepOne(hash, fm, s);
    if one != [] {
      assert one[1..] == [];
      assert Conflicts(hash, fm, one) == ConflictOne(hash, fm, one[0]) + [];
    }
  }

  lemma ConflictsOfInsert(hash: Hasher, fm: map<string, Block>, out: seq<Segment>, at: nat, b: Block)
    requires at <= |out| && !b.Edited(hash)
    ensures Conflicts(hash, fm, Insert(out, at, b)) == Conflicts(hash, fm, out)
  {
    hide Insertion, Conflicts;
    var ins := Insertion(out, at, b);
    InsertionUnedited(hash, out, at, b);
    assert out == out[..at] + out[at..];
    ConflictsConcat(hash, fm, out[..at], out[at..]);
    ConflictsConcat(hash, fm, out[..at], ins);
    ConflictsConcat(hash, fm, out[..at] + ins, out[at..]);
    NoConflicts(hash, fm, ins);
    assert Conflicts(hash, fm, out[..at]) + [] == Conflicts(hash, fm, out[..at]);
  }

  lemma InsertionUnedited(hash: Hasher, out: seq<Segment>, at: nat, b: Block)
    requires !b.Edited(hash)
    ensures NoEdits(hash, Insertion(out, at, b))
  {
  }

  ghost predicate NoEdits(hash: Hasher, segs: seq<Segment>) {
    forall i :: 0 <= i < |segs| && segs[i].Gen? ==> !segs[i].block.Edited(hash)
  }

  lemma {:induction false} NoConflicts(hash: Hasher, fm: map<string, Block>, segs: seq<Segment>)
    requires NoEdits(hash, segs)
    ensures Conflicts(hash, fm, segs) == []
  {
    if segs != [] {
      NoConflicts(hash, fm, segs[1..]);
    }
  }

  lemma {:induction false} ConflictsOfAddFresh(hash: Hasher, fm: map<string, Block>, out: seq<Segment>, prev: set<string>, render: seq<Block>, i: nat)
    requires i <= |render| && Unedited(hash, render)
    ensures Conflicts(hash, fm, AddFresh(out, prev, render, i)) == Conflicts(hash, fm, out)
    decreases |render| - i
  {
    if i < |render| {
      if render[i].key in Keys(out) || render[i].key in prev {
        ConflictsOfAddFresh(hash, fm, out, prev, render, i + 1);
      } else {
        var at := Anchor(out, render, i);
        ConflictsOfInsert(hash, fm, out, at, render[i]);
        ConflictsOfAddFresh(hash, fm, Insert(out, at, render[i]), prev, render, i + 1);
      }
    }
  }

  /** The conflicts are still there, the same and in the same order, in the merged document. */
  lemma MergeKeepsConflicts(hash: Hasher, existing: seq<Segment>, prev: set<string>, render: seq<Block>)
    requires Unedited(hash, render)
    ensures Conflicts(hash, ByKey(render), Merged(hash, existing, prev, render))
            == Conflicts(hash, ByKey(render), existing)
  {
    ByKeyUnedited(hash, render);
    ConflictsOfKeep(hash, ByKey(render), existing);
    ConflictsOfAddFresh(hash, ByKey(render), Keep(hash, ByKey(render), existing), prev, render, 0);
  }

  // ------------------------------------------------------- what a conflict holds

  ghost predicate LastWithKey(render: seq<Block>, key: string, m: int) {
    && 0 <= m < |render| && render[m].key == key
    && forall k :: m < k < |render| ==> render[k].key != key
  }

  /** The index holds the last block of each key. */
  lemma {:induction false} IndexHoldsLast(render: seq<Block>, key: string) returns (m: int)
    ensures key in ByKey(render) <==> m >= 0
    ensures m >= 0 ==> LastWithKey(render, key, m) && ByKey(render)[key] == render[m]
    ensures m < 0 ==> NoneWithKey(render, key)
  {
    hide ByKey, LastWithKey;
    if render == [] {
      IndexOfNothing();
      m := -1;
    } else {
      var n := |render| - 1;
      IndexGrows(render);
      if render[n].key == key {
        m := n;
        LastIsLast(render, key, m);
      } else {
        m := IndexHoldsLast(render[..n], key);
        LastStays(render, key, m);
      }
    }
  }

  ghost predicate NoneWithKey(render: seq<Block>, key: string) {
    forall k :: 0 <= k < |render| ==> render[k].key != key
  }

  lemma IndexOfNothing()
    ensures ByKey([]) == map[]
  {
  }

  lemma IndexGrows(render: seq<Block>)
    requires render != []
    ensures var n := |render| - 1; ByKey(render) == ByKey(render[..n])[render[n].key := render[n]]
  {
  }

  lemma LastIsLast(render: seq<Block>, key: string, m: int)
    requires m == |render| - 1 && m >= 0 && render[m].key == key
    ensures LastWithKey(render, key, m)
  {
  }

  lemma LastStays(render: seq<Block>, key: string, m: int)
    requires render != [] && render[|render| - 1].key != key
    ensures m >= 0 && LastWithKey(render[..|render| - 1], key, m) ==> LastWithKey(render, key, m) && render[m] == render[..|render| - 1][m]
    ensures NoneWithKey(render[..|render| - 1], key) ==> NoneWithKey(render, key)
  {
    var shorter := render[..|render| - 1];
    assert forall k :: 0 <= k < |shorter| ==> shorter[k] == render[k];
  }

  lemma OneLast(render: seq<Block>, key: string, m: int, k: int)
    requires LastWithKey(render, key, m) && LastWithKey(render, key, k)
    ensures m == k
  {
  }

  /** c is raised for segment i: a person edited it, and the last block of its key in
      the render has another hash. It carries the edit and that block. */
  ghost predicate RaisedFor(hash: Hasher, render: seq<Block>, segs: seq<Segment>, c: Conflict, i: int) {
    && 0 <= i < |segs| && segs[i].Gen? && segs[i].block.key == c.key
    && hash(segs[i].block.body) != segs[i].block.hash && c.human == segs[i].block.body
    && (exists m :: LastWithKey(render, c.key, m) && render[m] == c.generated)
    && c.generated.hash != segs[i].block.hash
  }

  /** The conflicts are exactly those. */
  lemma {:induction false} ConflictsExactly(hash: Hasher, render: seq<Block>, segs: seq<Segment>, c: Conflict)
    ensures c in Conflicts(hash, ByKey(render), segs) <==> exists i :: RaisedFor(hash, render, segs, c, i)
  {
    hide ByKey, RaisedFor, ConflictOne;
    if segs == [] {
      NothingRaised(hash, render, c);
    } else {
      ConflictsExactly(hash, render, segs[1..], c);
      RaisedForFirst(hash, render, segs, c);
      if i :| RaisedFor(hash, render, segs, c, i) {
        RaisedForLater(hash, render, segs, c, i - 1);
      }
      if i :| RaisedFor(hash, render, segs[1..], c, i) {
        RaisedForLater(hash, render, segs, c, i);
      }
    }
  }

  lemma NothingRaised(hash: Hasher, render: seq<Block>, c: Conflict)
    ensures forall i :: !RaisedFor(hash, render, [], c, i)
  {
  }

  lemma RaisedForLater(hash: Hasher, render: seq<Block>, segs: seq<Segment>, c: Conflict, i: int)
    requires segs != []
    ensures RaisedFor(hash, render, segs[1..], c, i) ==> RaisedFor(hash, render, segs, c, i + 1)
    ensures RaisedFor(hash, render, segs, c, i + 1) ==> i == -1 || RaisedFor(hash, render, segs[1..], c, i)
  {
    hide LastWithKey;
  }

  lemma RaisedForFirst(hash: Hasher, render: seq<Block>, segs: seq<Segment>, c: Conflict)
    requires segs != []
    ensures c in ConflictOne(hash, ByKey(render), segs[0]) <==> RaisedFor(hash, render, segs, c, 0)
  {
    hide ByKey;
    if segs[0].Gen? {
      var m := IndexHoldsLast(render, segs[0].block.key);
      if k :| LastWithKey(render, segs[0].block.key, k) && m >= 0 {
        forall k | LastWithKey(render, segs[0].block.key, k) ensures k == m {
          OneLast(render, segs[0].block.key, m, k);
        }
      }
    }
  }
}
