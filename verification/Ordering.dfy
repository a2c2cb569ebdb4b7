/** Byte-wise string order and sorting by a string key, as sort.Slice is used in
    backend/internal/doc. */
module Ordering {

  predicate Less(a: string, b: string) {
    if b == "" then false
    else if a == "" then true
    else a[0] < b[0] || (a[0] == b[0] && Less(a[1..], b[1..]))
  }

  /** The strings agree before n, where the first one ends or has the smaller character. */
  ghost predicate SmallerAt(a: string, b: string, n: nat) {
    && n <= |a| && n < |b| && a[..n] == b[..n]
    && (n == |a| || a[n] < b[n])
  }

  lemma {:induction false} LessExactly(a: string, b: string)
    ensures Less(a, b) <==> exists n: nat :: SmallerAt(a, b, n)
    decreases |a|
  {
    if a != "" && b != "" {
      LessExactly(a[1..], b[1..]);
      assert a == [a[0]] + a[1..] && b == [b[0]] + b[1..];
      if n: nat :| SmallerAt(a[1..], b[1..], n) && a[0] == b[0] {
        assert a[..n + 1] == [a[0]] + a[1..][..n] && b[..n + 1] == [b[0]] + b[1..][..n];
        assert SmallerAt(a, b, n + 1);
      }
      if n: nat :| SmallerAt(a, b, n) {
        if n > 0 {
          assert a[..n][0] == b[..n][0];
          assert a[1..][..n - 1] == a[..n][1..] && b[1..][..n - 1] == b[..n][1..];
          var m: nat := n - 1;
          assert SmallerAt(a[1..], b[1..], m);
        }
      }
    }
    if b != "" {
      assert a == "" || a[0] < b[0] ==> SmallerAt(a, b, 0);
    }
  }

  lemma {:induction false} LessTotal(a: string, b: string)
    ensures Less(a, b) || Less(b, a) || a == b
    ensures !(Less(a, b) && Less(b, a)) && !Less(a, a)
    decreases |a|
  {
    if a != "" {
      LessTotal(a[1..], a[1..]);
      if b != "" {
        LessTotal(a[1..], b[1..]);
        assert a == [a[0]] + a[1..] && b == [b[0]] + b[1..];
      }
    }
  }

  lemma {:induction false} LessTransitive(a: string, b: string, c: string)
    requires Less(a, b) && Less(b, c)
    ensures Less(a, c)
    decreases |a|
  {
    if a != "" && a[0] == b[0] && b[0] == c[0] {
      LessTransitive(a[1..], b[1..], c[1..]);
    }
  }

  /** Strictly ascending keys. */
  ghost predicate Ascending<T>(key: T -> string, s: seq<T>) {
    forall i, j :: 0 <= i < j < |s| ==> Less(key(s[i]), key(s[j]))
  }

  function InsertBy<T>(key: T -> string, x: T, s: seq<T>): seq<T> {
    if s == [] || Less(key(x), key(s[0])) then [x] + s else [s[0]] + InsertBy(key, x, s[1..])
  }

  function SortBy<T>(key: T -> string, s: seq<T>): seq<T> {
    if s == [] then [] else InsertBy(key, s[0], SortBy(key, s[1..]))
  }

  lemma {:induction false} InsertByMember<T>(key: T -> string, x: T, s: seq<T>, y: T)
    ensures y in InsertBy(key, x, s) <==> y == x || y in s
    ensures |InsertBy(key, x, s)| == |s| + 1
  {
    if !(s == [] || Less(key(x), key(s[0]))) {
      InsertByMember(key, x, s[1..], y);
      assert s == [s[0]] + s[1..];
    }
  }

  lemma {:induction false} SortByMember<T>(key: T -> string, s: seq<T>, y: T)
    ensures y in SortBy(key, s) <==> y in s
    ensures |SortBy(key, s)| == |s|
  {
    if s != [] {
      SortByMember(key, s[1..], y);
      InsertByMember(key, s[0], SortBy(key, s[1..]), y);
      assert s == [s[0]] + s[1..];
    }
  }

  lemma {:induction false} InsertByAscending<T>(key: T -> string, x: T, s: seq<T>)
    requires Ascending(key, s)
    requires forall y :: y in s ==> key(y) != key(x)
    ensures Ascending(key, InsertBy(key, x, s))
  {
    hide Less;
    var r := InsertBy(key, x, s);
    if s == [] {
    } else if Less(key(x), key(s[0])) {
      forall i, j | 0 <= i < j < |r| ensures Less(key(r[i]), key(r[j])) {
        if i == 0 && j > 1 {
          assert Less(key(s[0]), key(s[j - 1]));
          LessTransitive(key(x), key(s[0]), key(s[j - 1]));
        }
      }
    } else {
      var rest := InsertBy(key, x, s[1..]);
      InsertByAscending(key, x, s[1..]);
      assert s[0] in s;
      LessTotal(key(x), key(s[0]));
      forall i, j | 0 <= i < j < |r| ensures Less(key(r[i]), key(r[j])) {
        if i == 0 {
          assert r[j] == rest[j - 1] && rest[j - 1] in rest;
          InsertByMember(key, x, s[1..], r[j]);
          if r[j] in s[1..] {
            var k :| 0 <= k < |s[1..]| && s[1..][k] == r[j];
            assert s[k + 1] == r[j];
          } else {
            assert r[j] == x;
          }
        } else {
          assert r[i] == rest[i - 1] && r[j] == rest[j - 1];
        }
      }
    }
  }

  ghost predicate DistinctBy<T>(key: T -> string, s: seq<T>) {
    forall i, j :: 0 <= i < j < |s| ==> key(s[i]) != key(s[j])
  }

  /** Sorting distinct keys puts them in strictly ascending order. */
  lemma {:induction false} SortBySorts<T>(key: T -> string, s: seq<T>)
    requires DistinctBy(key, s)
    ensures Ascending(key, SortBy(key, s))
  {
    if s != [] {
      var rest := s[1..];
      SortBySorts(key, rest);
      forall y | y in SortBy(key, rest) ensures key(y) != key(s[0]) {
        SortByMember(key, rest, y);
        var k :| 0 <= k < |rest| && rest[k] == y;
        assert s[k + 1] == y;
      }
      InsertByAscending(key, s[0], SortBy(key, rest));
    }
  }

  /** There is only one strictly ascending list of given elements. */
  lemma {:induction false} AscendingUnique<T>(key: T -> string, a: seq<T>, b: seq<T>)
    requires Ascending(key, a) && Ascending(key, b)
    requires forall y :: y in a <==> y in b
    ensures a == b
    decreases |a|
  {
    HasFirst(b);
    if a != [] {
      assert a[0] in a && a[0] in b;
      assert b[0] in b && b[0] in a;
      FirstIsLeast(key, a, b[0]);
      FirstIsLeast(key, b, a[0]);
      LessTotal(key(a[0]), key(b[0]));
      SameFirst(key, a, b);
      forall y ensures y in a[1..] <==> y in b[1..] {
        TailMembers(key, a, y);
        TailMembers(key, b, y);
      }
      AscendingUnique(key, a[1..], b[1..]);
      assert a == [a[0]] + a[1..] && b == [b[0]] + b[1..];
    }
  }

  lemma HasFirst<T>(b: seq<T>)
    ensures b == [] || b[0] in b
  {
  }

  lemma FirstIsLeast<T>(key: T -> string, a: seq<T>, y: T)
    requires Ascending(key, a) && y in a
    ensures y == a[0] || Less(key(a[0]), key(y))
  {
    var k :| 0 <= k < |a| && a[k] == y;
  }

  lemma SameFirst<T>(key: T -> string, a: seq<T>, b: seq<T>)
    requires a != [] && b != [] && Ascending(key, a) && Ascending(key, b)
    requires a[0] in b && b[0] in a
    ensures a[0] == b[0]
  {
    FirstIsLeast(key, a, b[0]);
    FirstIsLeast(key, b, a[0]);
    LessTotal(key(a[0]), key(b[0]));
  }

  lemma TailMembers<T>(key: T -> string, a: seq<T>, y: T)
    requires a != [] && Ascending(key, a)
    ensures y in a[1..] <==> y in a && y != a[0]
  {
    assert a == [a[0]] + a[1..];
    LessTotal(key(a[0]), key(a[0]));
    if y in a[1..] {
      var k :| 0 <= k < |a[1..]| && a[1..][k] == y;
      assert a[k + 1] == y;
    }
  }
}
