/** The union-find inside identityClusters: backend/internal/doc/identities.go. */
module UnionFind {

  /** What joining a and b does to the representatives. */
  function JoinReps(rep: seq<nat>, a: nat, b: nat): (r: seq<nat>)
    requires a < |rep| && b < |rep|
    ensures |r| == |rep|
  {
    seq(|rep|, x requires 0 <= x < |rep| => if rep[x] == rep[b] then rep[a] else rep[x])
  }

  /** Parent links p lead from every element to its representative, and the height
      falls along every link, so the links have no cycle. */
  ghost predicate Rooted(p: seq<nat>, rep: seq<nat>, height: seq<nat>) {
    && |rep| == |p| && |height| == |p|
    && (forall i :: 0 <= i < |p| ==> p[i] < |p| && rep[i] < |p|)
    && (forall i :: 0 <= i < |p| ==> RootedAt(p, rep, height, i))
  }

  ghost predicate RootedAt(p: seq<nat>, rep: seq<nat>, height: seq<nat>, i: nat)
    requires |rep| == |p| && |height| == |p| && i < |p|
    requires forall k :: 0 <= k < |p| ==> p[k] < |p| && rep[k] < |p|
  {
    && p[rep[i]] == rep[i] && rep[p[i]] == rep[i]
    && (p[i] == i ==> rep[i] == i)
    && (p[i] != i ==> height[p[i]] < height[i])
    && height[rep[i]] <= height[i]
  }

  lemma Compress(p: seq<nat>, rep: seq<nat>, height: seq<nat>, i: nat)
    requires Rooted(p, rep, height) && i < |p| && p[i] != i
    ensures Rooted(p[i := rep[i]], rep, height)
  {
    var q := p[i := rep[i]];
    assert RootedAt(p, rep, height, i) && RootedAt(p, rep, height, p[i]) && RootedAt(p, rep, height, rep[i]);
    forall k | 0 <= k < |q| ensures RootedAt(q, rep, height, k) {
      assert RootedAt(p, rep, height, k);
    }
  }

  lemma Link(p: seq<nat>, rep: seq<nat>, height: seq<nat>, a: nat, b: nat)
    requires Rooted(p, rep, height) && a < |p| && b < |p| && rep[a] != rep[b]
    ensures Rooted(p[rep[b] := rep[a]], JoinReps(rep, a, b), Raised(rep, height, a, b))
  {
    var q, rep', height' := p[rep[b] := rep[a]], JoinReps(rep, a, b), Raised(rep, height, a, b);
    assert RootedAt(p, rep, height, a) && RootedAt(p, rep, height, b);
    assert RootedAt(p, rep, height, rep[a]) && RootedAt(p, rep, height, rep[b]);
    forall k | 0 <= k < |q| ensures RootedAt(q, rep', height', k) {
      assert RootedAt(p, rep, height, k) && RootedAt(p, rep, height, p[k]) && RootedAt(p, rep, height, rep[k]);
    }
  }

  /** The joined tree is lifted above the root it now hangs from. */
  ghost function Raised(rep: seq<nat>, height: seq<nat>, a: nat, b: nat): (h: seq<nat>)
    requires a < |rep| == |height| && b < |rep| && rep[a] < |rep|
    ensures |h| == |height|
  {
    seq(|rep|, x requires 0 <= x < |rep| =>
      if rep[x] == rep[b] then height[x] + height[rep[a]] + 1 else height[x])
  }

  class Forest {
    const parent: array<nat>
    ghost var rep: seq<nat>
    ghost var height: seq<nat>

    ghost predicate Valid()
      reads this, parent
    {
      Rooted(parent[..], rep, height)
    }

    constructor (n: nat)
      ensures Valid() && fresh(parent) && parent.Length == n
      ensures rep == seq(n, i => i)
    {
      parent := new nat[n](i => i);
      rep := seq(n, i => i);
      height := seq(n, i => 0);
      new;
      forall i | 0 <= i < n ensures RootedAt(parent[..], rep, height, i) {
      }
    }

    /** Finds the root and points every element on the way straight at it. */
    method Root(i: nat) returns (r: nat)
      requires Valid() && i < parent.Length
      modifies parent
      ensures Valid()
      ensures r == rep[i]
      decreases height[i]
    {
      assert RootedAt(parent[..], rep, height, i);
      if parent[i] != i {
        assert RootedAt(parent[..], rep, height, parent[i]);
        assert rep[i] != i;
        var p := Root(parent[i]);
        assert RootedAt(parent[..], rep, height, i);
        Compress(parent[..], rep, height, i);
        ghost var q := parent[..][i := p];
        parent[i] := p;
        assert parent[..] == q;
      }
      return parent[i];
    }

    method Join(a: nat, b: nat)
      requires Valid() && a < parent.Length && b < parent.Length
      modifies this, parent
      ensures Valid()
      ensures rep == JoinReps(old(rep), a, b)
    {
      var ra := Root(a);
      var rb := Root(b);
      if ra != rb {
        Link(parent[..], rep, height, a, b);
        ghost var q := parent[..][rb := ra];
        height := Raised(rep, height, a, b);
        rep := JoinReps(rep, a, b);
        parent[rb] := ra;
        assert parent[..] == q;
      } else {
        assert rep == JoinReps(rep, a, b);
      }
    }
  }
}
