/**
 Sorting by a comparison that is a total preorder. Both sorts of the board screen
 (tasks, status columns) copy their input and sort the copy; here that is a pure
 insertion sort returning a new sequence.
 */
module Sorting {
  import opened Seqs

  /** `leq` is total and transitive, so sorting by it is well defined. */
  ghost predicate TotalPreorder<T(!new)>(leq: (T, T) -> bool) {
    && (forall a, b :: leq(a, b) || leq(b, a))
    && (forall a, b, c :: leq(a, b) && leq(b, c) ==> leq(a, c))
  }

  predicate SortedBy<T>(s: seq<T>, leq: (T, T) -> bool) {
    forall i, j :: 0 <= i < j < |s| ==> leq(s[i], s[j])
  }

  /** Inserts `x` before the first element it precedes. */
  function Insert<T(==,!new)>(x: T, s: seq<T>, leq: (T, T) -> bool): (r: seq<T>)
    requires TotalPreorder(leq)
    requires SortedBy(s, leq)
    ensures multiset(r) == multiset(s) + multiset{x}
    ensures SortedBy(r, leq)
  {
    if |s| == 0 then [x]
    else if leq(x, s[0]) then
      PrependSmallest(x, s, leq);
      [x] + s
    else
      var rest := Insert(x, s[1..], leq);
      assert s == [s[0]] + s[1..];
      InsertedBehindHead(x, s, rest, leq);
      [s[0]] + rest
  }

  lemma ConsSorted<T>(h: T, t: seq<T>, leq: (T, T) -> bool)
    requires SortedBy(t, leq)
    requires forall j :: 0 <= j < |t| ==> leq(h, t[j])
    ensures SortedBy([h] + t, leq)
  {
    var r := [h] + t;
    forall i, j | 0 <= i < j < |r|
      ensures leq(r[i], r[j])
    {
      if i > 0 {
        assert r[i] == t[i - 1] && r[j] == t[j - 1];
      } else {
        assert r[j] == t[j - 1];
      }
    }
  }

  lemma PrependSmallest<T(!new)>(x: T, s: seq<T>, leq: (T, T) -> bool)
    requires TotalPreorder(leq)
    requires SortedBy(s, leq)
    requires |s| > 0 && leq(x, s[0])
    ensures SortedBy([x] + s, leq)
  {
    forall j | 0 <= j < |s|
      ensures leq(x, s[j])
    {
      if j > 0 {
        assert leq(s[0], s[j]);
      }
    }
    ConsSorted(x, s, leq);
  }

  lemma InsertedBehindHead<T(!new)>(x: T, s: seq<T>, rest: seq<T>, leq: (T, T) -> bool)
    requires TotalPreorder(leq)
    requires SortedBy(s, leq)
    requires |s| > 0 && !leq(x, s[0])
    requires SortedBy(rest, leq)
    requires multiset(rest) == multiset(s[1..]) + multiset{x}
    ensures SortedBy([s[0]] + rest, leq)
  {
    assert leq(s[0], x);
    forall j | 0 <= j < |rest|
      ensures leq(s[0], rest[j])
    {
      assert rest[j] in multiset(rest);
      if rest[j] != x {
        assert rest[j] in multiset(s[1..]);
        var k :| 0 <= k < |s[1..]| && s[1..][k] == rest[j];
        assert s[k + 1] == rest[j];
      }
    }
    ConsSorted(s[0], rest, leq);
  }

  function SortBy<T(==,!new)>(s: seq<T>, leq: (T, T) -> bool): (r: seq<T>)
    requires TotalPreorder(leq)
    ensures multiset(r) == multiset(s)
    ensures |r| == |s|
    ensures SortedBy(r, leq)
  {
    if |s| == 0 then []
    else
      assert s == [s[0]] + s[1..];
      Insert(s[0], SortBy(s[1..], leq), leq)
  }

  /** Sorting an already sorted sequence leaves it as it is, so sorting is idempotent. */
  lemma {:induction false} SortSortedIsIdentity<T(!new)>(s: seq<T>, leq: (T, T) -> bool)
    requires TotalPreorder(leq)
    requires SortedBy(s, leq)
    ensures SortBy(s, leq) == s
  {
    if |s| > 0 {
      assert SortedBy(s[1..], leq);
      SortSortedIsIdentity(s[1..], leq);
      assert s == [s[0]] + s[1..];
    }
  }

  lemma SortIdempotent<T(!new)>(s: seq<T>, leq: (T, T) -> bool)
    requires TotalPreorder(leq)
    ensures SortBy(SortBy(s, leq), leq) == SortBy(s, leq)
  {
    SortSortedIsIdentity(SortBy(s, leq), leq);
  }

  /** Deleting elements from a sorted sequence keeps it sorted. */
  lemma {:induction false} SubseqOfSortedIsSorted<T(!new)>(a: seq<T>, b: seq<T>, leq: (T, T) -> bool)
    requires SubseqOf(a, b)
    requires SortedBy(b, leq)
    ensures SortedBy(a, leq)
    decreases |b|
  {
    if |a| > 0 {
      assert SortedBy(b[1..], leq);
      if a[0] == b[0] && SubseqOf(a[1..], b[1..]) {
        SubseqOfSortedIsSorted(a[1..], b[1..], leq);
        SubseqMembers(a[1..], b[1..]);
        forall j | 0 < j < |a|
          ensures leq(a[0], a[j])
        {
          assert a[j] in a[1..];
          var k :| 0 <= k < |b[1..]| && b[1..][k] == a[j];
          assert b[k + 1] == a[j];
        }
      } else {
        SubseqOfSortedIsSorted(a, b[1..], leq);
      }
    }
  }
}
