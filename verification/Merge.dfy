/** Folding a fresh render into a document: backend/internal/doc/merge.go. */
module Merging {
  import Lines
  import opened Blocks

  /** A generated block that a human edited and whose upstream also changed. */
  datatype Conflict = Conflict(key: string, human: string, generated: Block)

  // -------------------------------------------------------- what merge means

  /** The fresh blocks by key; a repeated key keeps the last block. */
  function ByKey(render: seq<Block>): (m: map<string, Block>)
    ensures forall k :: k in m ==> m[k].key == k && m[k] in render
    ensures forall i :: 0 <= i < |render| ==> render[i].key in m
  {
    if render == [] then map[]
    else
      var last := render[|render| - 1];
      var m := ByKey(render[..|render| - 1]);
      m[last.key := last]
  }

  function Keys(segs: seq<Segment>): set<string> {
    set i | 0 <= i < |segs| && segs[i].Gen? :: segs[i].block.key
  }

  /** What an existing segment becomes. */
  function KeepOne(hash: Hasher, fm: map<string, Block>, s: Segment): seq<Segment> {
    match s
    case Text(_) => [s]
    case Gen(b) =>
      if b.key !in fm then (if b.Edited(hash) then [Text(b.body)] else [])
      else if b.Edited(hash) then [s]
      else [Gen(fm[b.key])]
  }

  function Keep(hash: Hasher, fm: map<string, Block>, segs: seq<Segment>): seq<Segment> {
    if segs == [] then [] else KeepOne(hash, fm, segs[0]) + Keep(hash, fm, segs[1..])
  }

  function ConflictOne(hash: Hasher, fm: map<string, Block>, s: Segment): seq<Conflict> {
    if s.Gen? && s.block.key in fm && s.block.Edited(hash) && fm[s.block.key].hash != s.block.hash
    then [Conflict(s.block.key, s.block.body, fm[s.block.key])]
    else []
  }

  /** Exactly the edited blocks whose upstream hash changed, in document order. */
  function Conflicts(hash: Hasher, fm: map<string, Block>, segs: seq<Segment>): seq<Conflict> {
    if segs == [] then [] else ConflictOne(hash, fm, segs[0]) + Conflicts(hash, fm, segs[1..])
  }

  function BlockIndexFrom(segs: seq<Segment>, key: string, i: nat): (r: int)
    requires i <= |segs|
    ensures r == -1 ==> forall k :: i <= k < |segs| && segs[k].Gen? ==> segs[k].block.key != key
    ensures r != -1 ==> i <= r < |segs| && segs[r].Gen? && segs[r].block.key == key
                        && forall k :: i <= k < r && segs[k].Gen? ==> segs[k].block.key != key
    decreases |segs| - i
  {
    if i == |segs| then -1
    else if segs[i].Gen? && segs[i].block.key == key then i
    else BlockIndexFrom(segs, key, i + 1)
  }

  /** Right after the nearest preceding fresh block that is in the document, else at the end. */
  function Anchor(out: seq<Segment>, render: seq<Block>, j: nat): (at: nat)
    requires j <= |render|
    ensures at <= |out|
    ensures at == |out| || (at > 0 && out[at - 1].Gen?)
  {
    if j == 0 then |out|
    else
      var idx := BlockIndexFrom(out, render[j - 1].key, 0);
      if idx >= 0 then idx + 1 else Anchor(out, render, j - 1)
  }

  /** p is where the first block with the key stands. */
  ghost predicate FirstWithKey(out: seq<Segment>, key: string, p: int) {
    && 0 <= p < |out| && out[p].Gen? && out[p].block.key == key
    && forall k :: 0 <= k < p && out[k].Gen? ==> out[k].block.key != key
  }

  /** j is the nearest entry before i in the render whose key is among the given ones. */
  ghost predicate Nearest(keys: set<string>, render: seq<Block>, i: nat, j: int)
    requires i <= |render|
  {
    && 0 <= j < i && render[j].key in keys
    && forall k :: j < k < i ==> render[k].key !in keys
  }

  ghost predicate NonePrecedes(keys: set<string>, render: seq<Block>, i: nat)
    requires i <= |render|
  {
    forall j :: 0 <= j < i ==> render[j].key !in keys
  }

  /** Directly behind the first block of the nearest present predecessor in the
      render, and at the end when no predecessor is present. */
  ghost predicate RightPlace(out: seq<Segment>, render: seq<Block>, i: nat, at: nat)
    requires i <= |render|
  {
    && (forall j :: Nearest(Keys(out), render, i, j) ==> FirstWithKey(out, render[j].key, at - 1))
    && (NonePrecedes(Keys(out), render, i) ==> at == |out|)
  }

  lemma KeyIsFound(out: seq<Segment>, key: string)
    ensures BlockIndexFrom(out, key, 0) >= 0 <==> key in Keys(out)
    ensures key in Keys(out) ==> FirstWithKey(out, key, BlockIndexFrom(out, key, 0))
  {
  }

  /** The anchor is that place, however far up the render the predecessor is. */
  lemma {:induction false} AnchorIsRightPlace(out: seq<Segment>, render: seq<Block>, i: nat)
    requires i <= |render|
    ensures RightPlace(out, render, i, Anchor(out, render, i))
    decreases i
  {
    hide Keys, BlockIndexFrom, FirstWithKey, RightPlace;
    if i == 0 {
      PlaceOfFirst(out, render);
    } else {
      var m: nat := i - 1;
      KeyIsFound(out, render[m].key);
      if render[m].key in Keys(out) {
        PlaceBehind(out, render, m, Anchor(out, render, i));
      } else {
        AnchorIsRightPlace(out, render, m);
        PlaceFurtherBack(out, render, m, Anchor(out, render, m));
      }
    }
  }

  lemma PlaceOfFirst(out: seq<Segment>, render: seq<Block>)
    ensures RightPlace(out, render, 0, |out|)
  {
  }

  lemma PlaceBehind(out: seq<Segment>, render: seq<Block>, m: nat, at: nat)
    requires m < |render| && render[m].key in Keys(out) && FirstWithKey(out, render[m].key, at - 1)
    ensures RightPlace(out, render, m + 1, at)
  {
    hide Keys, FirstWithKey, Nearest;
    var keys, i := Keys(out), m + 1;
    forall j | Nearest(keys, render, i, j) ensures j == m {
      NearestPresent(keys, render, m, j);
    }
  }

  lemma NearestPresent(keys: set<string>, render: seq<Block>, m: nat, j: int)
    requires m < |render| && render[m].key in keys && Nearest(keys, render, m + 1, j)
    ensures j == m
  {
  }

  lemma PlaceFurtherBack(out: seq<Segment>, render: seq<Block>, m: nat, at: nat)
    requires m < |render| && render[m].key !in Keys(out) && RightPlace(out, render, m, at)
    ensures RightPlace(out, render, m + 1, at)
  {
    hide Keys, FirstWithKey, Nearest, NonePrecedes;
    var keys, i := Keys(out), m + 1;
    forall j | Nearest(keys, render, i, j) ensures Nearest(keys, render, m, j) {
      NearestAbsent(keys, render, m, j);
    }
    if NonePrecedes(keys, render, i) {
      NoneBefore(keys, render, m);
    }
  }

  lemma NearestAbsent(keys: set<string>, render: seq<Block>, m: nat, j: int)
    requires m < |render| && render[m].key !in keys && Nearest(keys, render, m + 1, j)
    ensures Nearest(keys, render, m, j)
  {
  }

  lemma NoneBefore(keys: set<string>, render: seq<Block>, m: nat)
    requires m < |render| && NonePrecedes(keys, render, m + 1)
    ensures NonePrecedes(keys, render, m)
  {
  }

  predicate EndsWithNewline(out: seq<Segment>)
    requires out != []
  {
    var last := out[|out| - 1];
    last.Text? && |last.text| > 0 && last.text[|last.text| - 1] == '\n'
  }

  function Insertion(out: seq<Segment>, at: nat, b: Block): seq<Segment> {
    if at == |out| && (out == [] || EndsWithNewline(out))
    then (if out == [] then [] else [Text("\n")]) + [Gen(b), Text("\n")]
    else [Text("\n\n"), Gen(b)]
  }

  function Insert(out: seq<Segment>, at: nat, b: Block): seq<Segment>
    requires at <= |out|
  {
    out[..at] + Insertion(out, at, b) + out[at..]
  }

  /** Adds render[i..] to out, skipping keys that are already there or were in the previous render. */
  function AddFresh(out: seq<Segment>, prev: set<string>, render: seq<Block>, i: nat): seq<Segment>
    requires i <= |render|
    decreases |render| - i
  {
    if i == |render| then out
    else if render[i].key in Keys(out) || render[i].key in prev then AddFresh(out, prev, render, i + 1)
    else AddFresh(Insert(out, Anchor(out, render, i), render[i]), prev, render, i + 1)
  }

  function Merged(hash: Hasher, existing: seq<Segment>, prev: set<string>, render: seq<Block>): seq<Segment> {
    AddFresh(Keep(hash, ByKey(render), existing), prev, render, 0)
  }

  // -------------------------------------------------------------- the method

  method BlockIndex(segs: seq<Segment>, key: string) returns (r: int)
    ensures r == BlockIndexFrom(segs, key, 0)
  {
    for i := 0 to |segs|
      invariant BlockIndexFrom(segs, key, 0) == BlockIndexFrom(segs, key, i)
    {
      if segs[i].Gen? && segs[i].block.key == key {
        return i;
      }
    }
    return -1;
  }

  method IndexByKey(render: seq<Block>) returns (freshByKey: map<string, Block>)
    ensures freshByKey == ByKey(render)
  {
    freshByKey := map[];
    for i := 0 to |render|
      invariant freshByKey == ByKey(render[..i])
    {
      assert render[..i + 1][..i] == render[..i];
      freshByKey := freshByKey[render[i].key := render[i]];
    }
    assert render[..|render|] == render;
  }

  /** The first loop of Merge, over the existing segments. */
  method MergeExisting(hash: Hasher, existing: seq<Segment>, freshByKey: map<string, Block>)
    returns (out: seq<Segment>, conflicts: seq<Conflict>, present: set<string>)
    requires forall k :: k in freshByKey ==> freshByKey[k].key == k
    ensures out == Keep(hash, freshByKey, existing)
    ensures conflicts == Conflicts(hash, freshByKey, existing)
    ensures present == Keys(out)
  {
    hide Keys;
    out, conflicts, present := [], [], {};
    KeysEmpty();
    for i := 0 to |existing|
      invariant Keep(hash, freshByKey, existing) == out + Keep(hash, freshByKey, existing[i..])
      invariant Conflicts(hash, freshByKey, existing) == conflicts + Conflicts(hash, freshByKey, existing[i..])
      invariant present == Keys(out)
    {
      ghost var out0, conflicts0 := out, conflicts;
      var seg := existing[i];
      if seg.Text? {
        KeysAppend(out, seg);
        out := out + [seg];
      } else {
        var cur := seg.block;
        var edited := cur.Edited(hash);
        if cur.key !in freshByKey {
          if edited {
            KeysAppend(out, Text(cur.body));
            out := out + [Text(cur.body)];
          }
        } else {
          var nb := freshByKey[cur.key];
          if !edited {
            cur := nb;
          } else if nb.hash != cur.hash {
            conflicts := conflicts + [Conflict(cur.key, cur.body, nb)];
          }
          KeysAppend(out, Gen(cur));
          present := present + {cur.key};
          out := out + [Gen(cur)];
        }
      }
      assert out == out0 + KeepOne(hash, freshByKey, seg);
      assert conflicts == conflicts0 + ConflictOne(hash, freshByKey, seg);
      assert existing[i..][0] == seg && existing[i..][1..] == existing[i + 1..];
      Lines.Assoc(out0, KeepOne(hash, freshByKey, seg), Keep(hash, freshByKey, existing[i + 1..]));
      Lines.Assoc(conflicts0, ConflictOne(hash, freshByKey, seg), Conflicts(hash, freshByKey, existing[i + 1..]));
    }
    assert existing[|existing|..] == [];
  }

  method FindAnchor(out: seq<Segment>, render: seq<Block>, i: nat) returns (at: nat)
    requires i <= |render|
    ensures at == Anchor(out, render, i)
    ensures RightPlace(out, render, i, at)
  {
    hide RightPlace, Keys, BlockIndexFrom;
    AnchorIsRightPlace(out, render, i);
    at := |out|;
    var j: int := i - 1;
    while j >= 0
      invariant -1 <= j < i
      invariant Anchor(out, render, i) == Anchor(out, render, j + 1)
    {
      var idx := BlockIndex(out, render[j].key);
      if idx >= 0 {
        at := idx + 1;
        return;
      }
      j := j - 1;
    }
  }

  method Merge(hash: Hasher, existing: seq<Segment>, prevKeys: seq<string>, render: seq<Block>)
    returns (out: seq<Segment>, conflicts: seq<Conflict>)
    ensures out == Merged(hash, existing, (set k | k in prevKeys), render)
    ensures conflicts == Conflicts(hash, ByKey(render), existing)
  {
    hide Keys, Keep, Conflicts, Anchor, RightPlace;
    var freshByKey := IndexByKey(render);
    var prev := set k | k in prevKeys;
    var present: set<string>;
    out, conflicts, present := MergeExisting(hash, existing, freshByKey);
    for i := 0 to |render|
      invariant Merged(hash, existing, prev, render) == AddFresh(out, prev, render, i)
      invariant present == Keys(out)
    {
      var nb := render[i];
      if nb.key in present || nb.key in prev {
        continue;
      }
      var at := FindAnchor(out, render, i);
      var ins := [Text("\n\n"), Gen(nb)];
      if at == |out| && (|out| == 0 || EndsWithNewline(out)) {
        ins := [Gen(nb), Text("\n")];
        if |out| > 0 {
          ins := [Text("\n")] + ins;
        }
      }
      assert ins == Insertion(out, at, nb);
      KeysInsert(out, at, nb);
      out := out[..at] + ins + out[at..];
      present := present + {nb.key};
    }
  }

  lemma KeysEmpty()
    ensures Keys([]) == {}
  {
  }

  lemma KeysAppend(a: seq<Segment>, s: Segment)
    ensures Keys(a + [s]) == if s.Gen? then Keys(a) + {s.block.key} else Keys(a)
  {
    KeysConcat(a, [s]);
    assert Keys([s]) == if s.Gen? then {s.block.key} else {} by {
      assert [s][0] == s;
    }
  }

  lemma KeysConcat(a: seq<Segment>, b: seq<Segment>)
    ensures Keys(a + b) == Keys(a) + Keys(b)
  {
    forall k | k in Keys(a) + Keys(b) ensures k in Keys(a + b) {
      if k in Keys(a) {
        var i :| 0 <= i < |a| && a[i].Gen? && a[i].block.key == k;
        assert (a + b)[i] == a[i];
      } else {
        var i :| 0 <= i < |b| && b[i].Gen? && b[i].block.key == k;
        assert (a + b)[|a| + i] == b[i];
      }
    }
  }

  lemma KeysInsert(out: seq<Segment>, at: nat, b: Block)
    requires at <= |out|
    ensures Keys(Insert(out, at, b)) == Keys(out) + {b.key}
  {
    var ins := Insertion(out, at, b);
    KeysConcat(out[..at], ins);
    KeysConcat(out[..at] + ins, out[at..]);
    KeysConcat(out[..at], out[at..]);
    assert out == out[..at] + out[at..];
    assert Keys(ins) == {b.key} by {
      assert ins[0] == Gen(b) || ins[1] == Gen(b);
    }
  }
}
