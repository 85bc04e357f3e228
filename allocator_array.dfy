/**
 * The recency-ordered free-list pool `static_framedata_allocator_array<T>`:
 * one flat vector of `(pointer, count)` records. A pointer is modelled as a
 * Dafny array object: its identity is the address, its `Length` the element
 * count it was obtained for, and its elements the memory it holds.
 */
module AllocatorArray {
  import opened Wrappers

  /** One `Deallocation` record of the free list. */
  datatype Record<T> = Record(region: array<T>, count: nat)

  /** The regions held by a free list. */
  ghost function Regions<T>(s: seq<Record<T>>): set<array<T>>
  {
    set r | r in s :: r.region
  }

  /** No region is recorded twice (no double free has happened). */
  ghost predicate Distinct<T>(s: seq<Record<T>>)
  {
    forall i, j :: 0 <= i < j < |s| ==> s[i].region != s[j].region
  }

  /**
   * The reverse scan of `allocate(n)`: the index of the most recently freed
   * record whose count is exactly `n`, or None when there is none.
   */
  function LastMatch<T>(s: seq<Record<T>>, n: nat): (r: Option<nat>)
    ensures r.Some? ==> r.value < |s| && s[r.value].count == n
    ensures r.Some? ==> forall k :: r.value < k < |s| ==> s[k].count != n
    ensures r.None? <==> forall k :: 0 <= k < |s| ==> s[k].count != n
  {
    if s == [] then None
    else if s[|s| - 1].count == n then Some(|s| - 1)
    else LastMatch(s[..|s| - 1], n)
  }

  /**
   * Removal of record `i` as the source does it: overwrite it with the last
   * record (unless it is the last one) and pop the back.
   */
  function SwapRemove<T>(s: seq<Record<T>>, i: nat): (r: seq<Record<T>>)
    requires i < |s|
    ensures |r| == |s| - 1
  {
    if i == |s| - 1 then s[..i] else s[..i] + [s[|s| - 1]] + s[i + 1..|s| - 1]
  }

  /** The regions of count `n` in the order they sit in the free list. */
  function Filter<T>(s: seq<Record<T>>, n: nat): (r: seq<array<T>>)
  {
    if s == [] then []
    else Filter(s[..|s| - 1], n) + (if s[|s| - 1].count == n then [s[|s| - 1].region] else [])
  }

  /** The free regions of count `n`, ignoring order: what a request for `n` may be served from. */
  ghost function Bag<T>(s: seq<Record<T>>, n: nat): multiset<array<T>>
  {
    multiset(Filter(s, n))
  }

  lemma {:induction false} FilterAppend<T>(a: seq<Record<T>>, b: seq<Record<T>>, n: nat)
    ensures Filter(a + b, n) == Filter(a, n) + Filter(b, n)
  {
    if b == [] {
      assert a + b == a;
    } else {
      assert (a + b)[..|a + b| - 1] == a + b[..|b| - 1];
      FilterAppend(a, b[..|b| - 1], n);
    }
  }

  /** Swap-removal shortens the list by one, keeps every slot other than `i`, and moves the last record into slot `i`. */
  lemma SwapRemoveShape<T>(s: seq<Record<T>>, i: nat)
    requires i < |s|
    ensures |SwapRemove(s, i)| == |s| - 1
    ensures forall k :: 0 <= k < |s| - 1 && k != i ==> SwapRemove(s, i)[k] == s[k]
    ensures i < |s| - 1 ==> SwapRemove(s, i)[i] == s[|s| - 1]
  {
  }

  /** Swap-removal of record `i` loses exactly that record: the other records survive as a multiset. */
  lemma SwapRemoveMultiset<T>(s: seq<Record<T>>, i: nat)
    requires i < |s|
    ensures multiset(SwapRemove(s, i)) + multiset{s[i]} == multiset(s)
  {
    var last := |s| - 1;
    var r := SwapRemove(s, i);
    if i == last {
      assert s == r + [s[i]];
    } else {
      var a, b := s[..i], s[i + 1..last];
      assert s == a + [s[i]] + b + [s[last]];
      MiddleMultiset(a, s[i], b, s[last]);
    }
  }

  /** Moving the back record into the slot of `x` loses `x` and nothing else. */
  lemma MiddleMultiset<T>(a: seq<Record<T>>, x: Record<T>, b: seq<Record<T>>, y: Record<T>)
    ensures multiset(a + [y] + b) + multiset{x} == multiset(a + [x] + b + [y])
  {
  }

  /** Size classes of a concatenation add up. */
  lemma BagConcat<T>(a: seq<Record<T>>, b: seq<Record<T>>, m: nat)
    ensures Bag(a + b, m) == Bag(a, m) + Bag(b, m)
  {
    FilterAppend(a, b, m);
  }

  /** A single record contributes its region to its own size class only. */
  lemma BagSingle<T>(x: Record<T>, m: nat)
    ensures Bag([x], m) == if m == x.count then multiset{x.region} else multiset{}
  {
    assert [x][..0] == [];
    assert Filter([x], m) == Filter([], m) + (if x.count == m then [x.region] else []);
  }

  /** Swap-removal of record `i` takes one copy of its region out of its size class and leaves every other size class alone. */
  lemma BagSwapRemove<T>(s: seq<Record<T>>, i: nat, m: nat)
    requires i < |s|
    ensures Bag(SwapRemove(s, i), m) == if m == s[i].count then Bag(s, m) - multiset{s[i].region} else Bag(s, m)
  {
    var last := |s| - 1;
    BagSingle(s[i], m);
    if i == last {
      assert s == s[..i] + [s[i]];
      BagConcat(s[..i], [s[i]], m);
    } else {
      var a, b := s[..i], s[i + 1..last];
      assert s == a + [s[i]] + b + [s[last]];
      BagMiddle(a, s[i], b, s[last], m);
    }
  }

  /** Moving the back record into the slot of `x` takes `x`'s contribution out of every size class. */
  lemma BagMiddle<T>(a: seq<Record<T>>, x: Record<T>, b: seq<Record<T>>, y: Record<T>, m: nat)
    ensures Bag(a + [y] + b, m) + Bag([x], m) == Bag(a + [x] + b + [y], m)
  {
    BagConcat(a + [x] + b, [y], m);
    BagConcat(a + [x], b, m);
    BagConcat(a, [x], m);
    BagConcat(a + [y], b, m);
    BagConcat(a, [y], m);
  }

  /** Appending a record of count `n` adds its region to size class `n` only. */
  lemma BagAppend<T>(s: seq<Record<T>>, p: array<T>, n: nat, m: nat)
    ensures Bag(s + [Record(p, n)], m) == if m == n then Bag(s, m) + multiset{p} else Bag(s, m)
  {
    FilterAppend(s, [Record(p, n)], m);
  }

  /** Appending `(p, n)` grows size class `n` by `p`, for every size class at once. */
  lemma BagAppendAll<T>(s: seq<Record<T>>, p: array<T>, n: nat)
    ensures forall m :: Bag(s + [Record(p, n)], m) == if m == n then Bag(s, m) + multiset{p} else Bag(s, m)
  {
    forall m ensures Bag(s + [Record(p, n)], m) == if m == n then Bag(s, m) + multiset{p} else Bag(s, m) {
      BagAppend(s, p, n, m);
    }
  }

  /** The record the scan picks is the most recently freed one of its size in the current list. */
  lemma {:induction false} LastMatchIsMostRecent<T>(s: seq<Record<T>>, n: nat)
    requires LastMatch(s, n).Some?
    ensures Filter(s, n) != [] && Filter(s, n)[|Filter(s, n)| - 1] == s[LastMatch(s, n).value].region
  {
    if s[|s| - 1].count != n {
      LastMatchIsMostRecent(s[..|s| - 1], n);
    }
  }

  /** The scan stops at `i` when record `i` has count `n` and no later record does. */
  lemma LastMatchAt<T>(s: seq<Record<T>>, n: nat, i: nat)
    requires i < |s| && s[i].count == n
    requires forall k :: i < k < |s| ==> s[k].count != n
    ensures LastMatch(s, n) == Some(i)
  {
  }

  /** The scan misses exactly when size class `n` is empty. */
  lemma {:induction false} LastMatchNoneIffEmpty<T>(s: seq<Record<T>>, n: nat)
    ensures LastMatch(s, n).None? <==> Filter(s, n) == []
  {
    if s != [] {
      LastMatchNoneIffEmpty(s[..|s| - 1], n);
    }
  }

  /** Swap-removal keeps a duplicate-free list duplicate-free and the removed region is no longer in it. */
  lemma SwapRemoveDistinct<T>(s: seq<Record<T>>, i: nat)
    requires i < |s| && Distinct(s)
    ensures Distinct(SwapRemove(s, i))
    ensures s[i].region !in Regions(SwapRemove(s, i))
    ensures Regions(SwapRemove(s, i)) <= Regions(s)
  {
    var r := SwapRemove(s, i);
    SwapRemoveShape(s, i);
    forall k | 0 <= k < |r| ensures r[k].region != s[i].region && r[k] in s {
      var j := if k == i then |s| - 1 else k;
      assert r[k] == s[j] && j != i;
    }
  }

  /** Freeing `p` with count `n` and immediately asking for `n` again hands `p` back and restores the list. */
  lemma ReuseAfterFree<T>(s: seq<Record<T>>, p: array<T>, n: nat)
    ensures LastMatch(s + [Record(p, n)], n) == Some(|s|)
    ensures SwapRemove(s + [Record(p, n)], |s|) == s
  {
  }

  /** A region freed with count `n1` is never what a request for `n2 != n1` gets. */
  lemma NeverCrossSize<T>(s: seq<Record<T>>, n: nat, i: nat)
    requires i < |s| && s[i].count != n
    ensures LastMatch(s, n) != Some(i)
    ensures s[i].region !in Filter(s, n) || exists k :: 0 <= k < |s| && k != i && s[k].region == s[i].region && s[k].count == n
  {
    FilterMembers(s, n, s[i].region);
  }

  /** A region is in size class `n` exactly when some record holds it with count `n`. */
  lemma {:induction false} FilterMembers<T>(s: seq<Record<T>>, n: nat, p: array<T>)
    ensures p in Filter(s, n) <==> exists k :: 0 <= k < |s| && s[k].region == p && s[k].count == n
  {
    if s != [] {
      var init := s[..|s| - 1];
      FilterMembers(init, n, p);
      if p in Filter(init, n) {
        var k :| 0 <= k < |init| && init[k].region == p && init[k].count == n;
        assert s[k] == init[k];
      }
      if exists k :: 0 <= k < |s| && s[k].region == p && s[k].count == n {
        var k :| 0 <= k < |s| && s[k].region == p && s[k].count == n;
        if k < |init| {
          assert init[k] == s[k];
        }
      }
    }
  }

  /**
   * Within one size class the swap-removal does not keep recency order: with
   * the list [x(1), b(2), y(2)], serving a request for 1 moves y in front of
   * b, so the next request for 2 gets b although y was freed later.
   */
  lemma RecencyNotKept<T>(x: array<T>, b: array<T>, y: array<T>)
    requires b != y
    ensures var s := [Record(x, 1), Record(b, 2), Record(y, 2)];
            && Filter(s, 2) == [b, y]
            && LastMatch(s, 1) == Some(0)
            && LastMatch(SwapRemove(s, 0), 2) == Some(1)
            && SwapRemove(s, 0)[1].region == b
  {
    var s := [Record(x, 1), Record(b, 2), Record(y, 2)];
    var s2, s1 := [Record(x, 1), Record(b, 2)], [Record(x, 1)];
    assert s[..2] == s2 && s2[..1] == s1 && s1[..0] == [];
    assert Filter(s1, 2) == [];
    assert Filter(s2, 2) == [b];
    assert LastMatch(s1, 1) == Some(0);
    assert LastMatch(s2, 1) == Some(0);
    var t := [Record(y, 2), Record(b, 2)];
    assert SwapRemove(s, 0) == t;
  }

  /** Every record's region has the record's count, and no region is recorded twice. */
  ghost predicate WellFormed<T>(s: seq<Record<T>>)
  {
    && (forall k :: 0 <= k < |s| ==> s[k].region.Length == s[k].count)
    && Distinct(s)
  }

  /**
   * Serving a request for `n` from record `i` keeps the list well formed,
   * hands out a region of `n` elements that was in size class `n` and is no
   * longer in the list, and changes only size class `n`.
   */
  lemma SwapRemoveServes<T>(s: seq<Record<T>>, i: nat, n: nat)
    requires i < |s| && s[i].count == n && WellFormed(s)
    ensures WellFormed(SwapRemove(s, i))
    ensures s[i].region.Length == n && s[i].region !in Regions(SwapRemove(s, i))
    ensures s[i].region in Bag(s, n)
    ensures forall m :: Bag(SwapRemove(s, i), m) == if m == n then Bag(s, m) - multiset{s[i].region} else Bag(s, m)
  {
    SwapRemoveDistinct(s, i);
    SwapRemoveShape(s, i);
    forall m ensures Bag(SwapRemove(s, i), m) == if m == n then Bag(s, m) - multiset{s[i].region} else Bag(s, m) {
      BagSwapRemove(s, i, m);
    }
    FilterMembers(s, n, s[i].region);
  }

  /** The pool object: the `deallocations` vector, with the pool's invariant. */
  class ArrayPool<T(0)> {
    var free: seq<Record<T>>

    /** Every record's region has the record's count, and no region is recorded twice. */
    ghost predicate Valid()
      reads this
    {
      WellFormed(free)
    }

    /** The free regions a request for `n` may be served from. */
    ghost function Free(n: nat): multiset<array<T>>
      reads this
    {
      Bag(free, n)
    }

    constructor ()
      ensures Valid() && free == []
    {
      free := [];
    }

    /**
     * `allocate(n)`: scan from the back for a record of count `n`; on a hit
     * swap-remove it and return its region, otherwise return fresh storage.
     */
    method Allocate(n: nat) returns (r: array<T>)
      requires Valid()
      modifies this
      ensures Valid()
      ensures r.Length == n && r !in Regions(free)
      ensures fresh(r) || r in old(Regions(free))
      ensures match LastMatch(old(free), n)
              case Some(i) => r == old(free)[i].region && free == SwapRemove(old(free), i)
              case None => fresh(r) && free == old(free)
      ensures old(Free(n)) == multiset{} ==> fresh(r)
      ensures old(Free(n)) != multiset{} ==> r in old(Free(n))
      ensures Free(n) == old(Free(n)) - multiset{r}
      ensures forall m :: m != n ==> Free(m) == old(Free(m))
    {
      ghost var f0 := free;
      var i := |free|;
      while i > 0
        invariant 0 <= i <= |free| && free == f0
        invariant forall k :: i <= k < |free| ==> free[k].count != n
      {
        i := i - 1;
        if free[i].count == n {
          LastMatchAt(free, n, i);
          r := Take(i);
          return;
        }
      }
      r := new T[n];
      LastMatchNoneIffEmpty(f0, n);
    }

    /** The hit branch of `allocate`: take record `i`'s region, overwrite the record with the back one, pop the back. */
    method Take(i: nat) returns (r: array<T>)
      requires Valid() && i < |free|
      modifies this
      ensures Valid() && r == old(free)[i].region && free == SwapRemove(old(free), i)
      ensures r in old(Regions(free))
      ensures r.Length == old(free)[i].count && r !in Regions(free) && r in old(Free(free[i].count))
      ensures forall m :: Free(m) == if m == old(free)[i].count then old(Free(m)) - multiset{r} else old(Free(m))
    {
      ghost var f0 := free;
      r := free[i].region;
      if i != |free| - 1 {
        free := free[i := free[|free| - 1]];
      }
      free := free[..|free| - 1];
      assert free == SwapRemove(f0, i);
      SwapRemoveServes(f0, i, f0[i].count);
    }

    /** `deallocate(p, n)`: append the record `(p, n)`. */
    method Deallocate(p: array<T>, n: nat)
      requires Valid() && p.Length == n && p !in Regions(free)
      modifies this
      ensures Valid()
      ensures free == old(free) + [Record(p, n)]
      ensures Free(n) == old(Free(n)) + multiset{p}
      ensures forall m :: m != n ==> Free(m) == old(Free(m))
    {
      ghost var f0 := free;
      free := free + [Record(p, n)];
      forall m ensures Bag(free, m) == if m == n then Bag(f0, m) + multiset{p} else Bag(f0, m) {
        BagAppend(f0, p, n, m);
      }
    }
  }

  /** Allocating, freeing and allocating the same size again gives back the same pointer. */
  method ReuseSamePointer<T(0)>(pool: ArrayPool<T>, n: nat) returns (first: array<T>, second: array<T>)
    requires pool.Valid()
    modifies pool
    ensures pool.Valid() && first == second && second.Length == n
  {
    first := pool.Allocate(n);
    ghost var f := pool.free;
    pool.Deallocate(first, n);
    assert pool.free == f + [Record(first, n)];
    ReuseAfterFree(f, first, n);
    second := pool.Allocate(n);
    assert second == (f + [Record(first, n)])[|f|].region;
  }
}
