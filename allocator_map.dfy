/**
 * The size-indexed pool `static_framedata_allocator_map<T>`: one LIFO list of
 * free regions per exact element count. Regions are array objects as in
 * AllocatorArray.
 */
module AllocatorMap {

  /** No region occurs twice in one list. */
  ghost predicate NoDuplicates<T>(s: seq<array<T>>)
  {
    forall i, j :: 0 <= i < j < |s| ==> s[i] != s[j]
  }

  /** The list for count `n`, where an absent key reads as the empty list (as `operator[]` creates it). */
  function ListOf<T>(lists: map<nat, seq<array<T>>>, n: nat): seq<array<T>>
  {
    if n in lists then lists[n] else []
  }

  /** Popping the back of a duplicate-free list removes exactly the popped region. */
  lemma PopBack<T>(s: seq<array<T>>)
    requires s != [] && NoDuplicates(s)
    ensures NoDuplicates(s[..|s| - 1])
    ensures s[|s| - 1] !in s[..|s| - 1]
    ensures multiset(s[..|s| - 1]) == multiset(s) - multiset{s[|s| - 1]}
  {
    assert s == s[..|s| - 1] + [s[|s| - 1]];
    assert multiset(s) == multiset(s[..|s| - 1]) + multiset{s[|s| - 1]};
  }

  /** Pushing a region that is not in the list keeps it duplicate-free. */
  lemma PushBack<T>(s: seq<array<T>>, p: array<T>)
    requires NoDuplicates(s) && p !in s
    ensures NoDuplicates(s + [p])
  {
  }

  /** The pool object: the `deallocations` map from count to list. */
  class MapPool<T(0)> {
    var lists: map<nat, seq<array<T>>>

    /** Every region in list `n` has `n` elements and no list holds a region twice. */
    ghost predicate Valid()
      reads this
    {
      forall n :: n in lists ==>
        NoDuplicates(lists[n]) && forall k :: 0 <= k < |lists[n]| ==> lists[n][k].Length == n
    }

    /** The free regions a request for `n` may be served from. */
    ghost function Free(n: nat): multiset<array<T>>
      reads this
    {
      multiset(ListOf(lists, n))
    }

    constructor ()
      ensures Valid() && lists == map[]
    {
      lists := map[];
    }

    /**
     * `allocate(n)`: look up (and thereby create) the list for `n`; pop its
     * back if it is not empty, otherwise return fresh storage.
     */
    method Allocate(n: nat) returns (r: array<T>)
      requires Valid()
      modifies this
      ensures Valid()
      ensures r.Length == n && r !in ListOf(lists, n)
      ensures var av := ListOf(old(lists), n);
              if av == [] then fresh(r) && lists == old(lists)[n := []]
              else r == av[|av| - 1] && lists == old(lists)[n := av[..|av| - 1]]
      ensures old(Free(n)) == multiset{} ==> fresh(r)
      ensures old(Free(n)) != multiset{} ==> r in old(Free(n))
      ensures Free(n) == old(Free(n)) - multiset{r}
      ensures forall m :: m != n ==> Free(m) == old(Free(m))
    {
      if n !in lists {
        lists := lists[n := []];
      }
      var av := lists[n];
      if av != [] {
        r := av[|av| - 1];
        PopBack(av);
        lists := lists[n := av[..|av| - 1]];
        return;
      }
      r := new T[n];
    }

    /** `deallocate(p, n)`: push `p` onto the list for `n`. */
    method Deallocate(p: array<T>, n: nat)
      requires Valid() && p.Length == n && p !in ListOf(lists, n)
      modifies this
      ensures Valid()
      ensures lists == old(lists)[n := ListOf(old(lists), n) + [p]]
      ensures Free(n) == old(Free(n)) + multiset{p}
      ensures forall m :: m != n ==> Free(m) == old(Free(m))
    {
      var av := ListOf(lists, n);
      PushBack(av, p);
      lists := lists[n := av + [p]];
    }
  }

  /** Allocating, freeing and allocating the same size again gives back the same pointer. */
  method ReuseSamePointer<T(0)>(pool: MapPool<T>, n: nat) returns (first: array<T>, second: array<T>)
    requires pool.Valid()
    modifies pool
    ensures pool.Valid() && first == second && second.Length == n
  {
    first := pool.Allocate(n);
    pool.Deallocate(first, n);
    second := pool.Allocate(n);
  }
}
