/**
 Sequence operations shared by the board and admin screens: the order-preserving
 `Array.prototype.filter`, the insertion-ordered de-duplication `[...new Set(xs)]`,
 and the "remove it if present, append it otherwise" checkbox toggle.
 */
module Seqs {

  /** `a` is obtained from `b` by deleting elements, keeping the rest in order. */
  predicate SubseqOf<T(==,!new)>(a: seq<T>, b: seq<T>)
    decreases |b|
  {
    |a| == 0 || (|b| > 0 && ((a[0] == b[0] && SubseqOf(a[1..], b[1..])) || SubseqOf(a, b[1..])))
  }

  predicate NoDuplicates<T(==,!new)>(s: seq<T>) {
    forall i, j :: 0 <= i < j < |s| ==> s[i] != s[j]
  }

  /** The elements of `s` satisfying `p`, in their original order. */
  function Filter<T(==,!new)>(s: seq<T>, p: T -> bool): (r: seq<T>)
    ensures |r| <= |s|
    ensures forall x :: x in r <==> x in s && p(x)
  {
    if |s| == 0 then []
    else
      var rest := Filter(s[1..], p);
      assert s == [s[0]] + s[1..];
      if p(s[0]) then [s[0]] + rest else rest
  }

  /** Filtering keeps every passing element as often as it occurs and drops the others. */
  lemma {:induction false} FilterCounts<T(!new)>(s: seq<T>, p: T -> bool)
    ensures forall x :: multiset(Filter(s, p))[x] == if p(x) then multiset(s)[x] else 0
  {
    if |s| > 0 {
      FilterCounts(s[1..], p);
      assert s == [s[0]] + s[1..];
    }
  }

  /** Filtering keeps the surviving elements in their original order. */
  lemma {:induction false} FilterSubseq<T(!new)>(s: seq<T>, p: T -> bool)
    ensures SubseqOf(Filter(s, p), s)
  {
    if |s| > 0 {
      FilterSubseq(s[1..], p);
    }
  }

  /** When every element passes, filtering changes nothing. */
  lemma {:induction false} FilterAllPass<T(!new)>(s: seq<T>, p: T -> bool)
    requires forall i :: 0 <= i < |s| ==> p(s[i])
    ensures Filter(s, p) == s
  {
    if |s| > 0 {
      FilterAllPass(s[1..], p);
      assert s == [s[0]] + s[1..];
    }
  }

  lemma {:induction false} FilterAppend<T(!new)>(a: seq<T>, b: seq<T>, p: T -> bool)
    ensures Filter(a + b, p) == Filter(a, p) + Filter(b, p)
  {
    if |a| == 0 {
      assert a + b == b;
    } else {
      assert (a + b)[1..] == a[1..] + b;
      FilterAppend(a[1..], b, p);
    }
  }

  lemma {:induction false} SubseqMembers<T(!new)>(a: seq<T>, b: seq<T>)
    requires SubseqOf(a, b)
    ensures forall x :: x in a ==> x in b
    decreases |b|
  {
    if |a| > 0 {
      if a[0] == b[0] && SubseqOf(a[1..], b[1..]) {
        SubseqMembers(a[1..], b[1..]);
        assert forall x :: x in a ==> x == a[0] || x in a[1..];
        assert forall x :: x in b[1..] ==> x in b;
      } else {
        SubseqMembers(a, b[1..]);
        assert forall x :: x in b[1..] ==> x in b;
      }
    }
  }

  lemma {:induction false} SubseqOfSelf<T(!new)>(s: seq<T>)
    ensures SubseqOf(s, s)
  {
    if |s| > 0 {
      SubseqOfSelf(s[1..]);
    }
  }

  lemma {:induction false} SubseqTransitive<T(!new)>(a: seq<T>, b: seq<T>, c: seq<T>)
    requires SubseqOf(a, b) && SubseqOf(b, c)
    ensures SubseqOf(a, c)
    decreases |c|
  {
    if |a| > 0 && |c| > 0 {
      if b[0] == c[0] && SubseqOf(b[1..], c[1..]) {
        if a[0] == b[0] && SubseqOf(a[1..], b[1..]) {
          SubseqTransitive(a[1..], b[1..], c[1..]);
        } else {
          SubseqTransitive(a, b[1..], c[1..]);
        }
      } else {
        SubseqTransitive(a, b, c[1..]);
      }
    }
  }

  /** Deleting elements cannot create a duplicate. */
  lemma {:induction false} SubseqNoDuplicates<T(!new)>(a: seq<T>, b: seq<T>)
    requires SubseqOf(a, b)
    requires NoDuplicates(b)
    ensures NoDuplicates(a)
    decreases |b|
  {
    if |a| > 0 {
      assert NoDuplicates(b[1..]);
      if a[0] == b[0] && SubseqOf(a[1..], b[1..]) {
        SubseqNoDuplicates(a[1..], b[1..]);
        SubseqMembers(a[1..], b[1..]);
        forall j | 0 < j < |a|
          ensures a[0] != a[j]
        {
          assert a[j] in a[1..];
          var k :| 0 <= k < |b[1..]| && b[1..][k] == a[j];
          assert b[k + 1] == a[j];
        }
      } else {
        SubseqNoDuplicates(a, b[1..]);
      }
    }
  }

  /** `[...new Set(s)]`: each distinct element once, at the place of its first occurrence. */
  function Dedup<T(==,!new)>(s: seq<T>): (r: seq<T>)
    ensures forall x :: x in r <==> x in s
    ensures NoDuplicates(r)
    ensures NoDuplicates(s) ==> r == s
  {
    if |s| == 0 then []
    else
      var init := Dedup(s[..|s| - 1]);
      var last := s[|s| - 1];
      assert s == s[..|s| - 1] + [last];
      assert forall x :: x in s <==> x in s[..|s| - 1] || x == last;
      if last in init then init else init + [last]
  }

  /** The checkbox toggle: drop every copy of `x` when present, append it when absent. */
  function Toggle<T(==,!new)>(s: seq<T>, x: T): (r: seq<T>)
    ensures x in r <==> x !in s
    ensures forall y :: y != x ==> (y in r <==> y in s)
  {
    if x in s then Filter(s, y => y != x) else s + [x]
  }

  lemma ToggleTwiceRestores<T(!new)>(s: seq<T>, x: T)
    ensures forall y :: y in Toggle(Toggle(s, x), x) <==> y in s
    ensures x !in s ==> Toggle(Toggle(s, x), x) == s
  {
    if x !in s {
      FilterAppend(s, [x], y => y != x);
      assert Filter([x], y => y != x) == [];
      FilterAllPass(s, y => y != x);
    }
  }

  /** The elements of `a` that do not occur in `b`, in `a`'s order. */
  function Without<T(==,!new)>(a: seq<T>, b: seq<T>): (r: seq<T>)
    ensures forall x :: x in r <==> x in a && x !in b
    ensures SubseqOf(r, a)
  {
    var keep := x => x !in b;
    FilterSubseq(a, keep);
    Filter(a, keep)
  }

  /** Every element of `s` satisfies `ok`. */
  predicate AllOk<T>(s: seq<T>, ok: T -> bool) {
    forall k :: 0 <= k < |s| ==> ok(s[k])
  }

  lemma AllOkCons<T>(x: T, s: seq<T>, ok: T -> bool)
    ensures AllOk([x] + s, ok) <==> ok(x) && AllOk(s, ok)
  {
    if AllOk([x] + s, ok) {
      assert ok(([x] + s)[0]);
      forall k | 0 <= k < |s| ensures ok(s[k]) {
        assert s[k] == ([x] + s)[k + 1];
      }
    }
  }

  /**
   The calls actually made when `planned` are awaited one after another and the
   first that fails throws past the rest: the planned calls up to and including
   the first failing one.
   */
  function SentUntilFailure<T>(planned: seq<T>, ok: T -> bool): (r: seq<T>)
    ensures |r| <= |planned| && r == planned[..|r|]
    ensures forall k :: 0 <= k < |r| - 1 ==> ok(r[k])
    ensures |r| < |planned| ==> |r| > 0 && !ok(r[|r| - 1])
    ensures AllOk(r, ok) <==> AllOk(planned, ok)
    ensures AllOk(planned, ok) ==> r == planned
  {
    if |planned| == 0 then []
    else if !ok(planned[0]) then [planned[0]]
    else
      var rest := SentUntilFailure(planned[1..], ok);
      assert AllOk(planned, ok) <==> AllOk(planned[1..], ok) by {
        assert forall k :: 0 < k < |planned| ==> planned[k] == planned[1..][k - 1];
      }
      AllOkCons(planned[0], rest, ok);
      [planned[0]] + rest
  }

  /** `P` holds between the entries at any two different positions of `s`. */
  predicate PairwiseAt<T>(s: seq<T>, P: (T, T) -> bool) {
    forall i, j :: 0 <= i < |s| && 0 <= j < |s| && i != j ==> P(s[i], s[j])
  }

  /** A value at two different positions occurs at least twice. */
  lemma TwoPositionsCount<T>(s: seq<T>, i: int, j: int)
    requires 0 <= i < j < |s| && s[i] == s[j]
    ensures multiset(s)[s[i]] >= 2
  {
    assert s == s[..i] + [s[i]] + s[i + 1..];
    assert s[j] in s[i + 1..] by {
      assert s[i + 1..][j - i - 1] == s[j];
    }
  }

  /** A value occurring at least twice sits at two different positions. */
  lemma CountTwoPositions<T>(s: seq<T>, x: T) returns (p: int, q: int)
    requires multiset(s)[x] >= 2
    ensures 0 <= p < |s| && 0 <= q < |s| && p != q && s[p] == x && s[q] == x
  {
    assert x in multiset(s);
    p :| 0 <= p < |s| && s[p] == x;
    assert s == s[..p] + [s[p]] + s[p + 1..];
    if x in s[..p] {
      var k :| 0 <= k < p && s[..p][k] == x;
      q := k;
    } else {
      assert x in multiset(s[p + 1..]);
      var k :| 0 <= k < |s| - p - 1 && s[p + 1..][k] == x;
      q := p + 1 + k;
    }
  }

  /** Rearranging a sequence keeps a relation that held between any two of its positions. */
  lemma PairwiseAtPermutation<T>(s: seq<T>, t: seq<T>, P: (T, T) -> bool)
    requires multiset(s) == multiset(t)
    requires PairwiseAt(s, P)
    ensures PairwiseAt(t, P)
  {
    forall i, j | 0 <= i < |t| && 0 <= j < |t| && i != j
      ensures P(t[i], t[j])
    {
      if t[i] == t[j] {
        if i < j {
          TwoPositionsCount(t, i, j);
        } else {
          TwoPositionsCount(t, j, i);
        }
        var p, q := CountTwoPositions(s, t[i]);
        assert P(s[p], s[q]);
      } else {
        assert t[i] in multiset(s) && t[j] in multiset(s) by {
          assert t[i] in multiset(t) && t[j] in multiset(t);
        }
        var p :| 0 <= p < |s| && s[p] == t[i];
        var q :| 0 <= q < |s| && s[q] == t[j];
        assert P(s[p], s[q]);
      }
    }
  }
}
