/**
 * The channel splitter of `image.h`: one interleaved source buffer is split
 * into two destination buffers by two element-wise extraction functions.
 * Pointers that advance together are modelled as one index `i`.
 */
module ImageSplit {

  /**
   * `prior` after the first `count` slots have been overwritten with
   * `f(src[i])`, one slot at a time in increasing order, as a split loop does.
   */
  function Demuxed<S, D>(prior: seq<D>, src: seq<S>, count: int, f: S -> D): (r: seq<D>)
    requires count <= |src| && count <= |prior|
    ensures |r| == |prior|
    ensures forall i :: 0 <= i < |r| ==> r[i] == if i < count then f(src[i]) else prior[i]
    decreases count
  {
    if count <= 0 then prior else Demuxed(prior, src, count - 1, f)[count - 1 := f(src[count - 1])]
  }

  /** A non-positive count leaves the destination as it was. */
  lemma DemuxedNonPositive<S, D>(prior: seq<D>, src: seq<S>, count: int, f: S -> D)
    requires count <= 0 && count <= |src| && count <= |prior|
    ensures Demuxed(prior, src, count, f) == prior
  {
  }

  /** Only the first `count` slots depend on the source, and only on its first `count` elements. */
  lemma DemuxedPrefix<S, D>(prior: seq<D>, src: seq<S>, src': seq<S>, count: int, f: S -> D)
    requires 0 <= count <= |src| && count <= |src'| && count <= |prior|
    requires src[..count] == src'[..count]
    ensures Demuxed(prior, src, count, f) == Demuxed(prior, src', count, f)
    ensures Demuxed(prior, src, count, f)[count..] == prior[count..]
    ensures Demuxed(prior, src, count, f)[..count] == Demuxed(prior[..count], src, count, f)
  {
    var r, r' := Demuxed(prior, src, count, f), Demuxed(prior, src', count, f);
    forall i | 0 <= i < |r| ensures r[i] == r'[i] {
      if i < count {
        assert src[i] == src[..count][i] == src'[..count][i] == src'[i];
      }
    }
  }

  /** `split_frame_simple`: one loop writes `destA[i]` and `destB[i]` together. */
  method SplitFrameSimple<S, A, B>(destA: array<A>, destB: array<B>, count: int, source: array<S>, splitA: S -> A, splitB: S -> B)
    requires count <= source.Length && count <= destA.Length && count <= destB.Length
    requires destA as object != destB as object && destA as object != source as object && destB as object != source as object
    modifies destA, destB
    ensures destA[..] == Demuxed(old(destA[..]), source[..], count, splitA)
    ensures destB[..] == Demuxed(old(destB[..]), source[..], count, splitB)
    ensures source[..] == old(source[..])
  {
    var i := 0;
    while i < count
      invariant 0 <= i && (i <= count || i == 0)
      invariant destA[..] == Demuxed(old(destA[..]), source[..], i, splitA)
      invariant destB[..] == Demuxed(old(destB[..]), source[..], i, splitB)
    {
      destA[i] := splitA(source[i]);
      destB[i] := splitB(source[i]);
      i := i + 1;
    }
  }

  /** One side of `split_frame_parallel_sides`: a loop that writes `dest[i] := split(source[i])` for `i < count`. */
  method SplitSide<S, D>(dest: array<D>, count: int, source: array<S>, split: S -> D)
    requires count <= source.Length && count <= dest.Length
    requires dest as object != source as object
    modifies dest
    ensures dest[..] == Demuxed(old(dest[..]), source[..], count, split)
  {
    var i := 0;
    while i < count
      invariant 0 <= i && (i <= count || i == 0)
      invariant dest[..] == Demuxed(old(dest[..]), source[..], i, split)
    {
      dest[i] := split(source[i]);
      i := i + 1;
    }
  }

  /**
   * `split_frame_parallel_sides`, sequentially: the worker's side over
   * `destA`, then the calling thread's side over `destB`.
   */
  method SplitFrameParallelSides<S, A, B>(destA: array<A>, destB: array<B>, count: int, source: array<S>, splitA: S -> A, splitB: S -> B)
    requires count <= source.Length && count <= destA.Length && count <= destB.Length
    requires destA as object != destB as object && destA as object != source as object && destB as object != source as object
    modifies destA, destB
    ensures destA[..] == Demuxed(old(destA[..]), source[..], count, splitA)
    ensures destB[..] == Demuxed(old(destB[..]), source[..], count, splitB)
    ensures source[..] == old(source[..])
  {
    SplitSide(destA, count, source, splitA);
    SplitSide(destB, count, source, splitB);
  }

  /** `split_frame`: the parallel variant. */
  method SplitFrame<S, A, B>(destA: array<A>, destB: array<B>, count: int, source: array<S>, splitA: S -> A, splitB: S -> B)
    requires count <= source.Length && count <= destA.Length && count <= destB.Length
    requires destA as object != destB as object && destA as object != source as object && destB as object != source as object
    modifies destA, destB
    ensures destA[..] == Demuxed(old(destA[..]), source[..], count, splitA)
    ensures destB[..] == Demuxed(old(destB[..]), source[..], count, splitB)
    ensures source[..] == old(source[..])
  {
    SplitFrameParallelSides(destA, destB, count, source, splitA, splitB);
  }
}
