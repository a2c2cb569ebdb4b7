/** slices.Sort on strings: the sorted list of a multiset is unique. */
module SortedStrings {
  import opened Ordering

  ghost predicate Sorted(s: seq<string>) {
    forall i, j :: 0 <= i < j < |s| ==> !Less(s[j], s[i])
  }

  function Insert(x: string, s: seq<string>): seq<string> {
    if s == [] || !Less(s[0], x) then [x] + s else [s[0]] + Insert(x, s[1..])
  }

  function Sort(s: seq<string>): seq<string> {
    if s == [] then [] else Insert(s[0], Sort(s[1..]))
  }

  lemma NotLessTransitive(a: string, b: string, c: string)
    requires !Less(b, a) && !Less(c, b)
    ensures !Less(c, a)
  {
    LessTotal(a, b);
    LessTotal(b, c);
    if Less(c, a) {
      if Less(a, b) {
        LessTransitive(c, a, b);
      }
    }
  }

  lemma {:induction false} InsertMultiset(x: string, s: seq<string>)
    ensures multiset(Insert(x, s)) == multiset(s) + multiset{x}
  {
    hide Less;
    if !(s == [] || !Less(s[0], x)) {
      InsertMultiset(x, s[1..]);
      assert s == [s[0]] + s[1..];
    }
  }

  lemma {:induction false} InsertMember(x: string, s: seq<string>, y: string)
    ensures y in Insert(x, s) ==> y == x || y in s
  {
    hide Less;
    if !(s == [] || !Less(s[0], x)) {
      InsertMember(x, s[1..], y);
      assert s == [s[0]] + s[1..];
    }
  }

  lemma {:induction false} InsertSorted(x: string, s: seq<string>)
    requires Sorted(s)
    ensures Sorted(Insert(x, s))
  {
    hide Less;
    var r := Insert(x, s);
    if s == [] {
    } else if !Less(s[0], x) {
      forall i, j | 0 <= i < j < |r| ensures !Less(r[j], r[i]) {
        if i == 0 && j > 1 {
          NotLessTransitive(x, s[0], s[j - 1]);
        }
      }
    } else {
      var rest := Insert(x, s[1..]);
      InsertSorted(x, s[1..]);
      LessTotal(s[0], x);
      forall i, j | 0 <= i < j < |r| ensures !Less(r[j], r[i]) {
        if i == 0 {
          assert r[j] == rest[j - 1] && rest[j - 1] in rest;
          InsertMember(x, s[1..], r[j]);
          if r[j] != x {
            var k :| 0 <= k < |s[1..]| && s[1..][k] == r[j];
            assert s[k + 1] == r[j];
          }
        } else {
          assert r[i] == rest[i - 1] && r[j] == rest[j - 1];
        }
      }
    }
  }

  lemma {:induction false} SortSorts(s: seq<string>)
    ensures Sorted(Sort(s)) && multiset(Sort(s)) == multiset(s)
  {
    if s != [] {
      SortSorts(s[1..]);
      InsertSorted(s[0], Sort(s[1..]));
      InsertMultiset(s[0], Sort(s[1..]));
      assert s == [s[0]] + s[1..];
    }
  }

  lemma {:induction false} SortedUnique(a: seq<string>, b: seq<string>)
    requires Sorted(a) && Sorted(b) && multiset(a) == multiset(b)
    ensures a == b
    decreases |a|
  {
    hide Less;
    assert |multiset(a)| == |a| && |multiset(b)| == |b|;
    if a != [] {
      LeastFirst(a, b);
      LeastFirst(b, a);
      LessTotal(a[0], b[0]);
      TailMultiset(a);
      TailMultiset(b);
      SortedUnique(a[1..], b[1..]);
    }
  }

  lemma LeastFirst(a: seq<string>, b: seq<string>)
    requires Sorted(a) && multiset(a) == multiset(b) && a != [] && b != []
    ensures !Less(b[0], a[0])
  {
    hide Less;
    LessTotal(a[0], a[0]);
    assert b[0] in multiset(b);
    assert b[0] in a;
  }

  lemma TailMultiset(a: seq<string>)
    requires a != []
    ensures multiset(a[1..]) == multiset(a) - multiset{a[0]} && a == [a[0]] + a[1..]
  {
    assert a == [a[0]] + a[1..];
  }

  /** Sorting does not depend on the order of the input. */
  lemma SortOfPermutation(a: seq<string>, b: seq<string>)
    requires multiset(a) == multiset(b)
    ensures Sort(a) == Sort(b)
  {
    SortSorts(a);
    SortSorts(b);
    SortedUnique(Sort(a), Sort(b));
  }
}
