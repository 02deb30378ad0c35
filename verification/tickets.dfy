/** Ticket numbers of one raffle: the free pool an approval draws from, the
    draw without replacement, and the ascending sort applied to the draw
    before it is stored. */
module Tickets {

  /** No number occurs twice. */
  predicate Distinct(s: seq<int>) {
    forall i, j :: 0 <= i < j < |s| ==> s[i] != s[j]
  }

  predicate Ascending(s: seq<int>) {
    forall i, j :: 0 <= i < j < |s| ==> s[i] <= s[j]
  }

  predicate StrictlyAscending(s: seq<int>) {
    forall i, j :: 0 <= i < j < |s| ==> s[i] < s[j]
  }

  /** The numbers 1..total that do not occur in `taken`, in ascending order.
      Empty when total < 1, as Python's range(1, total + 1) is. */
  function FreePool(total: int, taken: seq<int>): (pool: seq<int>)
    ensures StrictlyAscending(pool)
    ensures forall x :: x in pool <==> 1 <= x <= total && x !in taken
    decreases total
  {
    if total < 1 then []
    else
      var below := FreePool(total - 1, taken);
      assert forall i :: 0 <= i < |below| ==> below[i] in below && below[i] < total;
      below + (if total in taken then [] else [total])
  }

  /** A possible result of random.sample(pool, k) when the entries of pool are
      pairwise distinct: k distinct entries of pool, in any order. */
  predicate IsSample(sample: seq<int>, pool: seq<int>, k: int) {
    && |sample| == k
    && Distinct(sample)
    && forall x :: x in sample ==> x in pool
  }

  /** What an approval may store: k numbers of the pool, ascending, none twice. */
  predicate IsSortedDraw(drawn: seq<int>, pool: seq<int>, k: int) {
    && |drawn| == k
    && StrictlyAscending(drawn)
    && forall x :: x in drawn ==> x in pool
  }

  lemma AscendingCons(h: int, t: seq<int>)
    requires Ascending(t)
    requires forall y :: y in t ==> h <= y
    ensures Ascending([h] + t)
  {
    forall i, j | 0 <= i < j < |[h] + t| ensures ([h] + t)[i] <= ([h] + t)[j] {
      if i > 0 {
        assert ([h] + t)[i] == t[i - 1];
      }
      assert ([h] + t)[j] == t[j - 1] && t[j - 1] in t;
    }
  }

  /** Inserts x into an ascending sequence. */
  function Insert(x: int, s: seq<int>): (r: seq<int>)
    requires Ascending(s)
    ensures Ascending(r)
    ensures multiset(r) == multiset(s) + multiset{x}
  {
    if s == [] || x <= s[0] then
      assert forall y :: y in s ==> x <= y by {
        forall y | y in s ensures x <= y {
          var i :| 0 <= i < |s| && s[i] == y;
          assert s[0] <= s[i];
        }
      }
      AscendingCons(x, s);
      [x] + s
    else
      var rest := Insert(x, s[1..]);
      assert s == [s[0]] + s[1..];
      assert forall y :: y in rest ==> s[0] <= y by {
        forall y | y in rest ensures s[0] <= y {
          assert y in multiset(rest);
          if y != x {
            assert y in s[1..];
            var i :| 0 <= i < |s[1..]| && s[1..][i] == y;
            assert s[0] <= s[i + 1];
          }
        }
      }
      AscendingCons(s[0], rest);
      [s[0]] + rest
  }

  /** The list sort applied to the drawn numbers: ascending, same numbers. */
  function SortAscending(s: seq<int>): (r: seq<int>)
    ensures Ascending(r)
    ensures multiset(r) == multiset(s)
  {
    if s == [] then []
    else
      assert s == [s[0]] + s[1..];
      Insert(s[0], SortAscending(s[1..]))
  }

  lemma {:induction false} DistinctOccursOnce(s: seq<int>)
    requires Distinct(s)
    ensures forall x :: multiset(s)[x] <= 1
  {
    if s != [] {
      var t, y := s[..|s| - 1], s[|s| - 1];
      assert s == t + [y];
      DistinctOccursOnce(t);
      forall i | 0 <= i < |t| ensures t[i] != y {
        assert s[i] != s[|s| - 1];
      }
    }
  }

  lemma RepeatOccursTwice(s: seq<int>, i: int, j: int)
    requires 0 <= i < j < |s| && s[i] == s[j]
    ensures multiset(s)[s[i]] >= 2
  {
    assert s == s[..j] + [s[j]] + s[j + 1..];
    assert s[..j][i] == s[i];
  }

  /** Pairwise distinctness is the same as every number occurring at most once. */
  lemma DistinctIffOccursOnce(s: seq<int>)
    ensures Distinct(s) <==> forall x :: multiset(s)[x] <= 1
  {
    if Distinct(s) {
      DistinctOccursOnce(s);
    } else {
      var i, j :| 0 <= i < j < |s| && s[i] == s[j];
      RepeatOccursTwice(s, i, j);
    }
  }

  /** A duplicate-free sequence has as many elements as its set. */
  lemma {:induction false} DistinctCard(s: seq<int>)
    requires Distinct(s)
    ensures |set x | x in s| == |s|
  {
    if s != [] {
      var t, y := s[..|s| - 1], s[|s| - 1];
      assert s == t + [y];
      assert Distinct(t);
      DistinctCard(t);
      forall i | 0 <= i < |t| ensures t[i] != y {
        assert s[i] != s[|s| - 1];
      }
      assert (set x | x in s) == (set x | x in t) + {y};
    }
  }

  lemma TakenUpTo(total: int, taken: seq<int>)
    ensures |set x | x in taken && 1 <= x <= total|
         == |set x | x in taken && 1 <= x <= total - 1| + (if total >= 1 && total in taken then 1 else 0)
  {
    var before := set x | x in taken && 1 <= x <= total - 1;
    var now := set x | x in taken && 1 <= x <= total;
    if total >= 1 && total in taken {
      assert now == before + {total};
    } else {
      assert now == before;
    }
  }

  /** The pool holds every number of 1..total except those taken. */
  lemma {:induction false} PoolSize(total: int, taken: seq<int>)
    requires total >= 0
    ensures |FreePool(total, taken)| == total - |set x | x in taken && 1 <= x <= total|
    decreases total
  {
    if total > 0 {
      PoolSize(total - 1, taken);
      TakenUpTo(total, taken);
    } else {
      assert (set x | x in taken && 1 <= x <= total) == {};
    }
  }

  /** When the taken numbers are distinct and all lie in 1..total, the pool has
      exactly total - |taken| numbers. */
  lemma PoolSizeOfDistinct(total: int, taken: seq<int>)
    requires total >= 0
    requires Distinct(taken)
    requires forall x :: x in taken ==> 1 <= x <= total
    ensures |FreePool(total, taken)| == total - |taken|
  {
    PoolSize(total, taken);
    assert (set x | x in taken && 1 <= x <= total) == (set x | x in taken);
    DistinctCard(taken);
  }

  /** Sorting a sample of the pool yields a draw: exactly k numbers, ascending,
      none twice, each in 1..total and none of them taken. */
  lemma SortedSampleIsDraw(sample: seq<int>, total: int, taken: seq<int>, k: int)
    requires IsSample(sample, FreePool(total, taken), k)
    ensures IsSortedDraw(SortAscending(sample), FreePool(total, taken), k)
    ensures forall x :: x in SortAscending(sample) ==> 1 <= x <= total && x !in taken
  {
    var drawn := SortAscending(sample);
    assert |drawn| == |multiset(drawn)| == |multiset(sample)| == k;
    DistinctIffOccursOnce(sample);
    DistinctIffOccursOnce(drawn);
    forall x | x in drawn ensures x in FreePool(total, taken) {
      assert x in multiset(drawn);
    }
  }

  /** Some sample exists whenever 0 <= k <= |pool| and the pool has no repeats. */
  lemma SampleExists(pool: seq<int>, k: int)
    requires StrictlyAscending(pool)
    requires 0 <= k <= |pool|
    ensures IsSample(pool[..k], pool, k)
  {
    forall x | x in pool[..k] ensures x in pool {
      var i :| 0 <= i < k && pool[..k][i] == x;
      assert pool[i] == x;
    }
  }

  /** In a strictly ascending sequence, the tail holds every element but the first. */
  lemma TailElements(a: seq<int>)
    requires StrictlyAscending(a) && a != []
    ensures forall x :: x in a[1..] <==> x in a && x != a[0]
  {
    forall x ensures x in a[1..] <==> x in a && x != a[0] {
      if x in a[1..] {
        var i :| 0 <= i < |a[1..]| && a[1..][i] == x;
        assert a[i + 1] == x;
      }
      if x in a && x != a[0] {
        var i :| 0 <= i < |a| && a[i] == x;
        assert a[1..][i - 1] == x;
      }
    }
  }

  lemma {:induction false} SameElementsSameSeq(a: seq<int>, b: seq<int>)
    requires StrictlyAscending(a) && StrictlyAscending(b)
    requires forall x :: x in a <==> x in b
    requires |a| == |b|
    ensures a == b
    decreases |a|
  {
    if a != [] {
      assert a[0] in a;
      assert b[0] in b;
      assert a[0] == b[0];
      TailElements(a);
      TailElements(b);
      SameElementsSameSeq(a[1..], b[1..]);
      assert a == [a[0]] + a[1..] && b == [b[0]] + b[1..];
    }
  }

  /** Drawing as many numbers as the pool holds takes the whole pool: the
      stored numbers are then exactly the pool, in order. */
  lemma DrawWholePool(drawn: seq<int>, pool: seq<int>)
    requires StrictlyAscending(pool)
    requires IsSortedDraw(drawn, pool, |pool|)
    ensures drawn == pool
  {
    var d := set x | x in drawn;
    var p := set x | x in pool;
    DistinctCard(drawn);
    DistinctCard(pool);
    assert d * p == d && d + p == p && d - p == {};
    assert |p - d| == 0;
    assert p - d == {};
    assert p == d;
    forall x ensures x in drawn <==> x in pool {
      assert x in p <==> x in pool;
      assert x in d <==> x in drawn;
    }
    SameElementsSameSeq(drawn, pool);
  }

  /** Taking the numbers of `a` out of a duplicate-free collection and putting
      the fresh numbers of `b` in keeps it duplicate-free; every number left
      was there before or is new, and the count changes by |b| - |a|. */
  lemma ReplacementKeepsApart(e: seq<int>, e': seq<int>, a: seq<int>, b: seq<int>)
    requires multiset(e') + multiset(a) == multiset(e) + multiset(b)
    requires Distinct(e) && Distinct(b)
    requires forall x :: x in b ==> x !in e
    ensures Distinct(e')
    ensures forall x :: x in e' ==> x in e || x in b
    ensures |e'| + |a| == |e| + |b|
  {
    assert |multiset(e') + multiset(a)| == |multiset(e) + multiset(b)|;
    DistinctIffOccursOnce(e);
    DistinctIffOccursOnce(b);
    forall x ensures multiset(e')[x] <= 1 {
      assert (multiset(e') + multiset(a))[x] == (multiset(e) + multiset(b))[x];
      if x in b {
        assert multiset(e)[x] == 0;
      }
    }
    DistinctIffOccursOnce(e');
    forall x | x in e' ensures x in e || x in b {
      assert (multiset(e') + multiset(a))[x] == (multiset(e) + multiset(b))[x];
    }
  }
}
