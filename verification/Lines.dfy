/** Newline-separated text: a string seen as its sequence of lines. */
module Lines {

  lemma Assoc<T>(x: seq<T>, y: seq<T>, z: seq<T>)
    ensures x + (y + z) == (x + y) + z
  {
  }

  lemma Tail<T>(a: seq<T>, b: seq<T>)
    requires a != []
    ensures (a + b)[0] == a[0] && (a + b)[1..] == a[1..] + b
  {
  }

  /** The first newline at or after `from`, or the end of the string. */
  function LineEnd(s: string, from: nat): (e: nat)
    requires from <= |s|
    ensures from <= e <= |s|
    ensures '\n' !in s[from..e]
    ensures e < |s| ==> s[e] == '\n'
    decreases |s| - from
  {
    if from == |s| || s[from] == '\n' then from
    else
      var e := LineEnd(s, from + 1);
      assert s[from..e] == [s[from]] + s[from + 1..e];
      e
  }

  /** The lines of a text with one more character in front. */
  function Prepend(c: char, ls: seq<string>): (r: seq<string>)
    requires |ls| >= 1
    ensures |r| >= 1
  {
    if c == '\n' then [""] + ls else [[c] + ls[0]] + ls[1..]
  }

  function Split(s: string): (ls: seq<string>)
    ensures |ls| >= 1
  {
    if s == "" then [""] else Prepend(s[0], Split(s[1..]))
  }

  function Join(ls: seq<string>): string
    requires |ls| >= 1
  {
    if |ls| == 1 then ls[0] else ls[0] + "\n" + Join(ls[1..])
  }

  ghost predicate NoNewlines(ls: seq<string>) {
    forall l :: l in ls ==> '\n' !in l
  }

  ghost predicate StartsNL(s: string) { |s| > 0 && s[0] == '\n' }

  ghost predicate EndsNL(s: string) { |s| > 0 && s[|s| - 1] == '\n' }

  lemma {:induction false} JoinSplit(s: string)
    ensures Join(Split(s)) == s
  {
    if s != "" {
      JoinSplit(s[1..]);
      var rest := Split(s[1..]);
      if s[0] == '\n' {
        assert ([""] + rest)[1..] == rest;
      } else {
        var ls := [[s[0]] + rest[0]] + rest[1..];
        assert ls[1..] == rest[1..];
      }
    }
  }

  lemma {:induction false} SplitHasNoNewlines(s: string)
    ensures NoNewlines(Split(s))
  {
    if s != "" {
      SplitHasNoNewlines(s[1..]);
    }
  }

  lemma PrependConcat(c: char, a: seq<string>, b: seq<string>)
    requires |a| >= 1
    ensures Prepend(c, a + b) == Prepend(c, a) + b
  {
    assert (a + b)[1..] == a[1..] + b;
  }

  /** A newline between two texts separates their lines. */
  lemma {:induction false} SplitConcat(a: string, b: string)
    ensures Split(a + "\n" + b) == Split(a) + Split(b)
  {
    var s := a + "\n" + b;
    if a == "" {
      assert s[1..] == b;
    } else {
      SplitConcat(a[1..], b);
      assert s[1..] == a[1..] + "\n" + b;
      PrependConcat(a[0], Split(a[1..]), Split(b));
    }
  }

  lemma {:induction false} SplitSingle(l: string)
    requires '\n' !in l
    ensures Split(l) == [l]
  {
    if l != "" {
      SplitSingle(l[1..]);
      assert [l[0]] + l[1..] == l;
    }
  }

  lemma {:induction false} SplitJoin(ls: seq<string>)
    requires |ls| >= 1 && NoNewlines(ls)
    ensures Split(Join(ls)) == ls
  {
    SplitSingle(ls[0]);
    if |ls| > 1 {
      SplitConcat(ls[0], Join(ls[1..]));
      SplitJoin(ls[1..]);
    }
  }

  lemma {:induction false} JoinConcat(a: seq<string>, b: seq<string>)
    requires |a| >= 1 && |b| >= 1
    ensures Join(a + b) == Join(a) + "\n" + Join(b)
  {
    if |a| == 1 {
      assert (a + b)[1..] == b;
    } else {
      JoinConcat(a[1..], b);
      assert (a + b)[1..] == a[1..] + b;
    }
  }

  /** Reading the line at position p peels the first line off the remaining text. */
  lemma SplitAt(s: string, p: nat)
    requires p <= |s|
    ensures var e := LineEnd(s, p);
            Split(s[p..]) == if e < |s| then [s[p..e]] + Split(s[e + 1..]) else [s[p..]]
  {
    var e := LineEnd(s, p);
    if e < |s| {
      assert s[p..] == s[p..e] + "\n" + s[e + 1..];
      SplitConcat(s[p..e], s[e + 1..]);
      SplitSingle(s[p..e]);
    } else {
      assert s[p..] == s[p..e];
      SplitSingle(s[p..]);
    }
  }
}
