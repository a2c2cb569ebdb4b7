/** The engine's own methods over a stored document, each proved to be the
    corresponding step of Ownership (backend/internal/doc/ownership.go). */
module Engine {
  import Sync
  import opened Blocks
  import opened Merging
  import opened MergeLaws
  import opened Generated
  import opened FreshRenders
  import opened Ownership

  class StoredDoc {
    var content: string
    var version: nat
    var genKeys: Option<set<string>>
    var origin: Origin
    var history: seq<Version>
    var changes: seq<Change>
    var job: Option<Job>
    var raising: seq<Proposal>

    function Now(): State
      reads this
    {
      State(content, version, genKeys, origin, history, changes, job, raising)
    }

    constructor (start: State)
      ensures Now() == start
    {
      content, version, genKeys, origin := start.content, start.version, start.genKeys, start.origin;
      history, changes, job, raising := start.history, start.changes, start.job, start.raising;
    }

    /** A version-checked or unchecked content write with its history row. */
    method Put(text: string, w: Write)
      modifies `content, `version, `history
      ensures Now() == Written(old(Now()), text, w)
    {
      content, version, history := text, version + 1, history + [Version(text, w)];
    }

    /** The last part of syncDoc, after the document was read into the job. */
    method SyncDoc(hash: Hasher)
      requires job.Some?
      modifies this
      ensures Now() == FinishSync(hash, old(Now()), old(job.value))
    {
      hide Sync.SyncText, Proposals, Baseline, RenderKeys, FreshSegments, Conflicts, Parse, ByKey;
      var j := job.value;
      var baseline := ReadBaseline(j);
      job := None;
      if baseline.None? {
        UpgradeLegacyDoc(hash, j);
        return;
      }
      MergeDoc(hash, j, baseline.value);
    }

    /** The merge, its write under the version check, and the proposals to raise. */
    method MergeDoc(hash: Hasher, j: Job, prev: set<string>)
      requires Baseline(j) == Some(prev) && job.None?
      modifies this
      ensures Now() == FinishSync(hash, old(Now()), j)
    {
      hide Sync.SyncText, Proposals, Baseline, RenderKeys, FreshSegments, Conflicts, Parse, ByKey;
      var text, raised := MergeJob(hash, j, prev);
      if text == j.content {
        genKeys := Some(RenderKeys(j.render));
      } else {
        if version != j.base {
          return;
        }
        Put(text, SyncWrite(prev, j.render));
        genKeys := Some(RenderKeys(j.render));
      }
      raising := raised;
    }

    method UpgradeLegacyDoc(hash: Hasher, j: Job)
      requires Baseline(j).None? && job.None?
      modifies this
      ensures Now() == FinishSync(hash, old(Now()), j)
    {
      hide Sync.SyncText, Proposals, Baseline, RenderKeys, FreshSegments, Conflicts, Parse, ByKey;
      var text := RenderFresh(j.render);
      if HumanLast(Now()) {
        origin := Human;
        raising := [Proposal(DocAdopt, "", j.content, text, hash(text))];
        return;
      }
      if version != j.base {
        return;
      }
      Put(text, LegacyWrite);
      genKeys := Some(RenderKeys(j.render));
    }

    /** raiseDocChange for the next proposal of the sync. */
    method RaiseDocChange()
      requires raising != []
      modifies `changes, `raising
      ensures raising == old(raising)[1..]
      ensures changes == Raise(old(changes), old(raising)[0])
    {
      hide SamePattern;
      var p := raising[0];
      raising := raising[1..];
      var i := |changes| - 1;
      while i >= 0 && !SamePattern(changes[i].proposal, p)
        invariant -1 <= i < |changes|
        invariant Latest(changes, p, |changes|) == Latest(changes, p, i + 1)
      {
        i := i - 1;
      }
      if i >= 0 {
        if changes[i].proposal.genHash == p.genHash {
          return;
        }
        if changes[i].status == New {
          changes := changes[i := changes[i].(status := Dismissed)];
        }
      }
      changes := changes + [Change(p, New)];
    }

    /** ResolveChange: returns false where the source returns an error. */
    method ResolveChange(hash: Hasher, c: nat, accept: bool) returns (ok: bool)
      requires c < |changes|
      modifies this
      ensures Now() == Ownership.ResolveChange(hash, old(Now()), c, accept)
      ensures ok ==> changes == old(changes)[c := old(changes)[c].(status := Acknowledged)]
      ensures !ok ==> Now() == old(Now())
    {
      hide Parse, Decided, Keys, Render;
      var p := changes[c].proposal;
      if changes[c].status != New {
        return false;
      }
      if p.kind.DocAdopt? {
        if accept {
          var segs := ParseBlocks(p.generated);
          Put(p.generated, ResolveWrite(p, accept));
          genKeys, origin := Some(Keys(segs)), FromSync;
        }
      } else {
        var written := WriteDecision(hash, p, accept);
        if !written {
          return false;
        }
      }
      changes := changes[c := changes[c].(status := Acknowledged)];
      return true;
    }

    /** Rewrites the block of a conflict, if it is still there. */
    method WriteDecision(hash: Hasher, p: Proposal, accept: bool) returns (written: bool)
      modifies `content, `version, `history
      ensures var d := Decided(hash, Parse(old(content)), p, accept);
        && written == d.Some?
        && Now() == if written then Written(old(Now()), Render(d.value), ResolveWrite(p, accept)) else old(Now())
    {
      hide Parse, Decided, Render;
      var segs := ParseBlocks(content);
      var decided := Decide(hash, segs, p, accept);
      if decided.None? {
        return false;
      }
      var text := RenderSegments(decided.value);
      Put(text, ResolveWrite(p, accept));
      return true;
    }
  }

  method Decide(hash: Hasher, segs: seq<Segment>, p: Proposal, accept: bool) returns (d: Option<seq<Segment>>)
    ensures d == Decided(hash, segs, p, accept)
  {
    hide NewBlock;
    var i := BlockIndex(segs, p.key);
    if i < 0 {
      return None;
    }
    if accept {
      d := Some(segs[i := Gen(NewBlock(hash, p.key, p.generated))]);
    } else {
      d := Some(segs[i := Text(segs[i].block.body)]);
    }
  }

  method ReadBaseline(j: Job) returns (b: Option<set<string>>)
    ensures b == Baseline(j)
  {
    hide Parse, Keys, BlocksOf;
    if j.genKeys.Some? {
      return j.genKeys;
    }
    var existing := ParseBlocks(j.content);
    b := if BlocksOf(existing) != [] then Some(Keys(existing)) else None;
  }

  method MergeJob(hash: Hasher, j: Job, prev: set<string>) returns (text: string, raised: seq<Proposal>)
    ensures text == Sync.SyncText(hash, j.content, prev, j.render)
    ensures raised == Proposals(Conflicts(hash, ByKey(j.render), Parse(j.content)))
  {
    hide Parse, Merged, Conflicts, ByKey, Render;
    var existing := ParseBlocks(j.content);
    var prevKeys := SetToSeq(prev);
    var out, conflicts := Merge(hash, existing, prevKeys, j.render);
    text := RenderSegments(out);
    raised := Proposals(conflicts);
  }

  /** The stored key list; its order is not used by the merge. */
  method SetToSeq(s: set<string>) returns (keys: seq<string>)
    ensures (set k | k in keys) == s
  {
    var left := s;
    keys := [];
    while left != {}
      invariant (set k | k in keys) + left == s
      decreases left
    {
      var k :| k in left;
      keys, left := keys + [k], left - {k};
    }
  }
}
