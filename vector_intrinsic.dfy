/**
 * The owning buffer handle `vector_intrinsic<T>`. Its state is the pair
 * `(data_, size_)`; every region it obtains comes from, and goes back to, an
 * explicit ArrayPool (the pool the source reaches through its singleton).
 * Lifecycle: empty (`data == null`, `size == 0`), holding a region, and
 * moved-from, which is empty again.
 */
module VectorIntrinsic {
  import opened Wrappers
  import opened AllocatorArray

  /** A pointer into a held region: `data_ + offset`. */
  datatype Iter<T> = Iter(region: array?<T>, offset: nat)

  /** The threshold below which `resize` initializes every element. */
  const InitializationLimit: nat := 1024

  /**
   * The free list after a handle holding `(d, size)` has released its region:
   * size class `size` gains `d`, and no other size class changes.
   */
  function Released<T>(free: seq<Record<T>>, d: array?<T>, size: nat): (r: seq<Record<T>>)
    ensures forall m :: Bag(r, m) == if d != null && m == size then Bag(free, m) + multiset{d} else Bag(free, m)
  {
    if d == null then free else BagAppendAll(free, d, size); free + [Record(d, size)]
  }

  /** The elements from iterator `b` up to iterator `e` in one region. */
  ghost function Between<T>(b: Iter<T>, e: Iter<T>): seq<T>
    reads if b.region == null then {} else {b.region}
    requires b.region == e.region && b.offset <= e.offset
    requires b.region == null ==> e.offset == 0
    requires b.region != null ==> e.offset <= b.region.Length
  {
    if b.region == null then [] else b.region[b.offset..e.offset]
  }

  /** The free list after the pool has served a request for `k`. */
  function AfterAllocate<T>(free: seq<Record<T>>, k: nat): (r: seq<Record<T>>)
    ensures LastMatch(free, k).None? ==> r == free
    ensures LastMatch(free, k).Some? ==> multiset(r) + multiset{free[LastMatch(free, k).value]} == multiset(free)
  {
    match LastMatch(free, k)
    case Some(i) => SwapRemoveMultiset(free, i); SwapRemove(free, i)
    case None => free
  }

  /** The free region handed out for a request of `k`, or None when the request needs fresh storage. */
  function Reused<T>(free: seq<Record<T>>, k: nat): (r: Option<array<T>>)
    ensures r.None? <==> forall j :: 0 <= j < |free| ==> free[j].count != k
    ensures r.Some? ==> Record(r.value, k) in free
  {
    match LastMatch(free, k)
    case Some(i) => Some(free[i].region)
    case None => None
  }

  /** `std::copy` into a region: element by element, in order. */
  method CopyElements<T>(d: array<T>, src: seq<T>)
    requires d.Length == |src|
    modifies d
    ensures d[..] == src
  {
    var i := 0;
    while i < |src|
      invariant 0 <= i <= |src|
      invariant forall k :: 0 <= k < i ==> d[k] == src[k]
    {
      d[i] := src[i];
      i := i + 1;
    }
  }

  /** `memcpy` into a region: all elements at once. */
  method CopyBytes<T>(d: array<T>, src: seq<T>)
    requires d.Length == |src|
    modifies d
    ensures d[..] == src
  {
    forall k | 0 <= k < d.Length {
      d[k] := src[k];
    }
  }

  /** The initializing loop of `resize_with_initialization`: every element becomes `value`. */
  method FillElements<T>(d: array<T>, value: T)
    modifies d
    ensures forall k :: 0 <= k < d.Length ==> d[k] == value
  {
    var i := 0;
    while i < d.Length
      invariant 0 <= i <= d.Length
      invariant forall k :: 0 <= k < i ==> d[k] == value
    {
      d[i] := value;
      i := i + 1;
    }
  }

  class Handle<T(0)> {
    const pool: ArrayPool<T>
    var data: array?<T>
    var size: nat

    /** The handle invariant: `size` is the held region's length, and that region is not also in the free list. */
    ghost predicate Valid()
      reads this, pool
    {
      && pool.Valid()
      && (data == null ==> size == 0)
      && (data != null ==> data.Length == size && data !in Regions(pool.free))
    }

    /**
     * The pool-side outcome of a re-allocation to `k` elements: the held
     * region went back to the pool under its old size, then the pool served
     * the request, from a free region or from fresh storage.
     */
    twostate predicate Reallocated(k: nat)
      reads this, pool
    {
      var f := Released(old(pool.free), old(data), old(size));
      && pool.free == AfterAllocate(f, k)
      && if Reused(f, k).Some? then data == Reused(f, k).value else fresh(data)
    }

    /** The objects whose elements the handle owns. */
    function Footprint(): set<object>
      reads this
    {
      if data == null then {} else {data}
    }

    /** The elements from `begin()` to `end()`. */
    function Elements(): seq<T>
      reads this, Footprint()
    {
      if data == null then [] else data[..]
    }

    /** The default constructor: an empty handle. */
    constructor (pool: ArrayPool<T>)
      ensures this.pool == pool && data == null && size == 0
      ensures pool.Valid() ==> Valid()
    {
      this.pool := pool;
      data := null;
      size := 0;
    }

    /** `clear()`: forget the region without releasing it. */
    method Clear()
      modifies this
      ensures data == null && size == 0
    {
      data := null;
      size := 0;
    }

    /** `deallocate()`: give a held region back to the pool under its size; a no-op when empty. */
    method Deallocate()
      requires Valid()
      modifies this, pool
      ensures Valid() && data == null && size == 0
      ensures pool.free == Released(old(pool.free), old(data), old(size))
      ensures old(data) == null ==> pool.free == old(pool.free)
      ensures forall m :: pool.Free(m) == if old(data) != null && m == old(size) then old(pool.Free(m)) + multiset{old(data)} else old(pool.Free(m))
    {
      if data != null {
        pool.Deallocate(data, size);
        Clear();
      }
    }

    /** `allocate(k)`: release the held region, then hold a region of `k` elements from the pool. */
    method Allocate(k: nat)
      requires Valid()
      modifies this, pool
      ensures Valid() && size == k && data != null && data.Length == k
      ensures Reallocated(k)
      ensures fresh(data) || data in old(Regions(pool.free) + Footprint())
    {
      Deallocate();
      size := k;
      data := pool.Allocate(size);
    }

    /** `move_from(m)`: take over `m`'s region and leave `m` empty. */
    method MoveFrom(m: Handle<T>)
      requires Valid() && m.Valid() && m.pool == pool
      modifies this, m
      ensures m.data == null && m.size == 0
      ensures m != this ==> data == old(m.data) && size == old(m.size)
      ensures Valid() && m.Valid()
    {
      data := m.data;
      size := m.size;
      m.Clear();
    }

    /** The move constructor: the new handle owns `m`'s region and `m` is empty. */
    constructor FromMoved(m: Handle<T>)
      requires m.Valid()
      modifies m
      ensures pool == m.pool && data == old(m.data) && size == old(m.size)
      ensures m.data == null && m.size == 0
      ensures Valid() && m.Valid()
    {
      pool := m.pool;
      data := m.data;
      size := m.size;
      new;
      m.Clear();
    }

    /** Move assignment: release the held region, then take over `m`'s. */
    method MoveAssign(m: Handle<T>)
      requires Valid() && m.Valid() && m.pool == pool
      requires m != this && m.data != null ==> m.data != data
      modifies this, m, pool
      ensures pool.free == Released(old(pool.free), old(data), old(size))
      ensures m.data == null && m.size == 0
      ensures m != this ==> data == old(m.data) && size == old(m.size)
      ensures m == this ==> data == null && size == 0
      ensures Valid() && m.Valid()
    {
      Deallocate();
      MoveFrom(m);
    }

    /** The generic `assign(begin, end)`: allocate `|src|` elements, then copy the range element by element (`std::copy`). */
    method Assign(src: seq<T>)
      requires Valid()
      modifies this, pool, Regions(pool.free), Footprint()
      ensures Valid() && size == |src| && Elements() == src
      ensures Reallocated(|src|)
      ensures forall a: array<T> | (a in old(Regions(pool.free)) || a == old(data)) && a != data :: a[..] == old(a[..])
    {
      Allocate(|src|);
      CopyElements(data, src);
    }

    /** The contiguous `assign(begin, end)`: the range `src[lo..hi]` is copied in bulk by AssignBulk. */
    method AssignContiguous(src: array<T>, lo: nat, hi: nat)
      requires Valid() && lo <= hi <= src.Length
      modifies this, pool, Regions(pool.free), Footprint()
      ensures Valid() && size == hi - lo && Elements() == old(src[lo..hi])
      ensures Reallocated(hi - lo)
      ensures forall a: array<T> | (a in old(Regions(pool.free)) || a == old(data)) && a != data :: a[..] == old(a[..])
    {
      AssignBulk(src[lo..hi]);
    }

    /** The body of the contiguous `assign`: allocate `|bytes|` elements, then copy them all at once (`memcpy`). */
    method AssignBulk(bytes: seq<T>)
      requires Valid()
      modifies this, pool, Regions(pool.free), Footprint()
      ensures Valid() && size == |bytes| && Elements() == bytes
      ensures Reallocated(|bytes|)
      ensures forall a: array<T> | (a in old(Regions(pool.free)) || a == old(data)) && a != data :: a[..] == old(a[..])
    {
      Allocate(|bytes|);
      CopyBytes(data, bytes);
    }

    /** `begin()` and `data()`: the start of the held region. */
    function Begin(): (it: Iter<T>)
      reads this
    {
      Iter(data, 0)
    }

    /** Iterating from `begin()` to `end()` visits exactly the held elements, in order. */
    lemma IterateBeginEnd()
      requires Valid()
      ensures Begin().region == End().region && Begin().offset <= End().offset
      ensures Between(Begin(), End()) == Elements()
    {
    }

    /** `end()`: one past the last element, so that `end() - begin() == size()`. */
    function End(): (it: Iter<T>)
      reads this, pool, Footprint()
      requires Valid()
      ensures it.region == Begin().region && it.offset - Begin().offset == Size() == |Elements()|
    {
      Iter(data, size)
    }

    /** `size()`: the number of elements between `begin()` and `end()`. */
    function Size(): (n: nat)
      reads this, pool, Footprint()
      requires Valid()
      ensures n == |Elements()|
      ensures data == null ==> n == 0
    {
      size
    }

    /** `resize_with_initialization(n, v)`: allocate `n` elements and set each to `v`. */
    method ResizeWithInitialization(n: nat, value: T)
      requires Valid()
      modifies this, pool, Regions(pool.free), Footprint()
      ensures Valid() && size == n && |Elements()| == n
      ensures forall k :: 0 <= k < n ==> Elements()[k] == value
      ensures Reallocated(n)
      ensures forall a: array<T> | (a in old(Regions(pool.free)) || a == old(data)) && a != data :: a[..] == old(a[..])
    {
      Allocate(n);
      FillElements(data, value);
    }

    /** `resize_without_initialization(n, v)`: allocate `n` elements and leave whatever the region holds. */
    method ResizeWithoutInitialization(n: nat, value: T)
      requires Valid()
      modifies this, pool
      ensures Valid() && size == n && |Elements()| == n
      ensures Reallocated(n)
    {
      Allocate(n);
    }

    /** `resize(n, v)`: initialize below the threshold, skip initialization at or above it. */
    method Resize(n: nat, value: T)
      requires Valid()
      modifies this, pool, Regions(pool.free), Footprint()
      ensures Valid() && size == n && |Elements()| == n
      ensures n < InitializationLimit ==> forall k :: 0 <= k < n ==> Elements()[k] == value
      ensures n >= InitializationLimit ==> unchanged(Regions(old(pool.free)), old(Footprint()))
      ensures Reallocated(n)
      ensures forall a: array<T> | (a in old(Regions(pool.free)) || a == old(data)) && a != data :: a[..] == old(a[..])
    {
      if n < InitializationLimit {
        ResizeWithInitialization(n, value);
      } else {
        ResizeWithoutInitialization(n, value);
      }
    }
  }

  /** After a move the source is empty, and destroying it leaves the pool and the target alone. */
  method MoveThenDestroySource<T(0)>(a: Handle<T>, b: Handle<T>)
    requires a != b && a.Valid() && b.Valid() && a.pool == b.pool
    requires a.data != null ==> a.data != b.data
    modifies a, b, a.pool
    ensures a.data == null && a.size == 0 && a.Valid() && b.Valid()
    ensures b.data == old(a.data) && b.size == old(a.size)
    ensures a.pool.free == Released(old(a.pool.free), old(b.data), old(b.size))
  {
    b.MoveAssign(a);
    ghost var f := a.pool.free;
    a.Deallocate();
    assert a.pool.free == f;
  }
}
