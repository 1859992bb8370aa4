/** The list chunker: get_chunks cuts a list into consecutive slices of
    len(list) // num_chunks elements, one slice starting at every multiple of
    that size below len(list) - 1. */
module Chunking {
  import opened Builtins

  /** The built-in exception get_chunks raises. */
  datatype ChunkError =
    | ZeroDivision   // num_chunks == 0: the floor division raises
    | ZeroStep       // chunk size 0: range() refuses a zero step

  function Min(a: int, b: int): int
  {
    if a < b then a else b
  }

  /** [xs[i:i + size] for i in starts] */
  function Slices<T>(xs: seq<T>, starts: seq<int>, size: int): seq<seq<T>>
  {
    seq(|starts|, k requires 0 <= k < |starts| => PySlice(xs, starts[k], starts[k] + size))
  }

  /** get_chunks(xs, n) as written: the slices start at
      range(0, len(xs) - 1, size). */
  function Chunks<T>(xs: seq<T>, n: int): Result<seq<seq<T>>, ChunkError>
  {
    if n == 0 then Fail(ZeroDivision)
    else
      var size := FloorDiv(|xs|, n);
      if size == 0 then Fail(ZeroStep)
      else Ok(Slices(xs, Range(0, |xs| - 1, size), size))
  }

  /** The chunker with the walk stopping at len(xs) instead, so that the
      slices cover the whole list. */
  function CoveringChunks<T>(xs: seq<T>, n: int): Result<seq<seq<T>>, ChunkError>
  {
    if n == 0 then Fail(ZeroDivision)
    else
      var size := FloorDiv(|xs|, n);
      if size == 0 then Fail(ZeroStep)
      else Ok(Slices(xs, Range(0, |xs|, size), size))
  }

  /** The concatenation of the chunks. */
  function Flatten<T>(c: seq<seq<T>>): seq<T>
  {
    if c == [] then [] else c[0] + Flatten(c[1..])
  }

  // ---------------------------------------------------------------------
  // Arithmetic on the chunk size

  lemma MulMono(a: int, b: int, c: int)
    requires a <= b && c >= 0
    ensures a * c <= b * c
  {
  }

  lemma MulCancel(a: int, b: int, c: int)
    requires c > 0 && a * c < b * c
    ensures a < b
  {
    if a >= b {
      MulMono(b, a, c);
    }
  }

  /** The least m >= 0 with m * size >= a is unique. */
  lemma CountUnique(m1: int, m2: int, size: int, a: int)
    requires size > 0 && m1 >= 0 && m2 >= 0
    requires m1 * size >= a && (m1 == 0 || (m1 - 1) * size < a)
    requires m2 * size >= a && (m2 == 0 || (m2 - 1) * size < a)
    ensures m1 == m2
  {
    if m2 >= 1 {
      MulCancel(m2 - 1, m1, size);
    }
    if m1 >= 1 {
      MulCancel(m1 - 1, m2, size);
    }
  }

  /** A multiple of size leaves no remainder. */
  lemma ModOfMultiple(m: int, size: int)
    requires size > 0
    ensures (m * size) % size == 0
  {
    var a := m * size;
    var q, r := a / size, a % size;
    assert a == size * q + r && 0 <= r < size;
    var d := m - q;
    assert size * d == r;
    if d >= 1 {
      MulMono(1, d, size);
    } else if d <= -1 {
      MulMono(d, -1, size);
    }
  }

  /** When size does not divide a, no multiple of size equals a. */
  lemma NotMultipleBound(m: int, a: int, size: int)
    requires size > 0 && a % size != 0
    requires m * size >= a
    ensures m * size > a
  {
    if m * size == a {
      ModOfMultiple(m, size);
    }
  }

  /** When size divides a, a / size multiples of size make up a. */
  lemma MultipleIs(a: int, size: int)
    requires size > 0 && a % size == 0
    ensures (a / size) * size == a
  {
  }

  /** len // n is zero exactly for an empty list or a count above the
      length; it is negative for a negative count on a non-empty list, and
      at least one for a count between 1 and the length. */
  lemma ChunkSizeSign(len: nat, n: int)
    requires n != 0
    ensures FloorDiv(len, n) == 0 <==> len == 0 || n > len
    ensures n < 0 && len > 0 ==> FloorDiv(len, n) < 0
    ensures 0 < n <= len ==> FloorDiv(len, n) >= 1
  {
    var q := FloorDiv(len, n);
    if n > 0 {
      if q >= 1 {
        MulMono(1, q, n);
      } else if q <= -1 {
        MulMono(q, -1, n);
      }
    } else {
      assert q * -n == -(n * q);
      if q >= 1 {
        MulMono(1, q, -n);
      } else if q <= -1 {
        MulMono(q, -1, -n);
      }
    }
  }

  // ---------------------------------------------------------------------
  // When the chunker raises

  /** A zero count raises in the division; a chunk size of zero (an empty
      list, or a positive count above the length) raises in range(); a
      negative count on a non-empty list gives no chunks at all. */
  lemma ChunksErrors<T>(xs: seq<T>, n: int)
    ensures Chunks(xs, n) == Fail(ZeroDivision) <==> n == 0
    ensures Chunks(xs, n) == Fail(ZeroStep) <==> n != 0 && (xs == [] || n > |xs|)
    ensures Chunks(xs, n).Ok? <==> 0 < n <= |xs| || (n < 0 && xs != [])
    ensures n < 0 && xs != [] ==> Chunks(xs, n) == Ok([])
  {
    if n != 0 {
      ChunkSizeSign(|xs|, n);
      if n < 0 && xs != [] {
        var size := FloorDiv(|xs|, n);
        assert Range(0, |xs| - 1, size) == [];
        assert Slices(xs, [], size) == [];
      }
    }
  }

  // ---------------------------------------------------------------------
  // The shape of the chunks

  lemma SliceIs<T>(xs: seq<T>, i: int, size: int)
    requires 0 <= i <= |xs| && size >= 0
    ensures PySlice(xs, i, i + size) == xs[i..Min(i + size, |xs|)]
  {
  }

  /** The chunks c of xs for a chunk size: chunk k starts at k * size,
      below len(xs) - 1, and is xs[k * size:(k + 1) * size], cut short at
      the end of the list; every chunk is non-empty, all but the last have
      exactly size elements, and there are ceil((len(xs) - 1) / size) of
      them. */
  ghost predicate Shaped<T>(xs: seq<T>, size: int, c: seq<seq<T>>)
  {
    size >= 1
    && |c| * size >= |xs| - 1 && (|c| == 0 || (|c| - 1) * size < |xs| - 1)
    && (forall k :: 0 <= k < |c| ==>
          0 <= k * size < |xs| - 1 && c[k] == xs[k * size..Min(k * size + size, |xs|)])
    && (forall k :: 0 <= k < |c| ==> c[k] != [])
    && (forall k :: 0 <= k < |c| - 1 ==> |c[k]| == size)
  }

  /** For a count between 1 and the length, the chunks have that shape for
      the size len(xs) // n; their number can exceed the count asked for. */
  lemma ChunksShape<T>(xs: seq<T>, n: int)
    requires 0 < n <= |xs|
    ensures Chunks(xs, n).Ok?
    ensures Shaped(xs, FloorDiv(|xs|, n), Chunks(xs, n).value)
  {
    ChunkSizeSign(|xs|, n);
    var size := FloorDiv(|xs|, n);
    assert Chunks(xs, n) == Ok(Slices(xs, Range(0, |xs| - 1, size), size));
    SlicesShape(xs, size);
  }

  /** The slices at range(0, len(xs) - 1, size) have that shape. */
  lemma SlicesShape<T>(xs: seq<T>, size: int)
    requires size >= 1
    ensures Shaped(xs, size, Slices(xs, Range(0, |xs| - 1, size), size))
  {
    var starts := Range(0, |xs| - 1, size);
    var c := Slices(xs, starts, size);
    assert |c| == |starts|;
    RangeCount(|xs| - 1, size);
    forall k | 0 <= k < |c|
      ensures 0 <= k * size < |xs| - 1
      ensures c[k] == xs[k * size..Min(k * size + size, |xs|)]
      ensures c[k] != []
      ensures k < |c| - 1 ==> |c[k]| == size
    {
      ChunkAt(xs, size, starts, c, k);
    }
  }

  /** range(0, stop, size) has ceil(stop / size) elements. */
  lemma RangeCount(stop: int, size: int)
    requires size >= 1
    ensures |Range(0, stop, size)| * size >= stop
    ensures |Range(0, stop, size)| == 0 || (|Range(0, stop, size)| - 1) * size < stop
  {
    var r := Range(0, stop, size);
    if |r| > 0 {
      assert r[|r| - 1] == (|r| - 1) * size;
    }
  }

  /** Chunk k of the slices at range(0, len(xs) - 1, size). */
  lemma ChunkAt<T>(xs: seq<T>, size: int, starts: seq<int>, c: seq<seq<T>>, k: int)
    requires size >= 1
    requires starts == Range(0, |xs| - 1, size) && c == Slices(xs, starts, size)
    requires 0 <= k < |starts|
    ensures 0 <= k * size < |xs| - 1
    ensures c[k] == xs[k * size..Min(k * size + size, |xs|)]
    ensures c[k] != []
    ensures k < |c| - 1 ==> |c[k]| == size
  {
    var i := k * size;
    assert 0 <= i == starts[k] < |xs| - 1 by {
      MulMono(0, k, size);
    }
    assert c[k] == xs[i..Min(i + size, |xs|)] by {
      assert c[k] == PySlice(xs, i, i + size);
      SliceIs(xs, i, size);
    }
    if k < |starts| - 1 {
      assert i + size < |xs| - 1 by {
        assert i + size == starts[k + 1] by {
          assert (k + 1) * size == k * size + size;
        }
      }
    }
  }

  /** Eleven items asked for in three chunks come back in four. */
  lemma ChunksMoreThanAsked<T>(xs: seq<T>)
    requires |xs| == 11
    ensures Chunks(xs, 3).Ok? && |Chunks(xs, 3).value| == 4
  {
    ChunksShape(xs, 3);
    var c := Chunks(xs, 3).value;
    assert FloorDiv(|xs|, 3) == 3;
    CountUnique(|c|, 4, 3, 10);
  }

  // ---------------------------------------------------------------------
  // What the chunks cover

  lemma SlicesCons<T>(xs: seq<T>, start: int, rest: seq<int>, size: int)
    ensures Slices(xs, [start] + rest, size) == [PySlice(xs, start, start + size)] + Slices(xs, rest, size)
  {
    var l, r := Slices(xs, [start] + rest, size), [PySlice(xs, start, start + size)] + Slices(xs, rest, size);
    assert |l| == |r|;
    forall k | 0 <= k < |l| ensures l[k] == r[k] {
      if k > 0 {
        assert ([start] + rest)[k] == rest[k - 1];
      }
    }
  }

  /** The first value of the walk start, start + size, ... that is not
      below stop: where the slices taken along the walk end. */
  function WalkEnd(start: int, stop: int, size: int): int
    requires size > 0
    decreases stop - start
  {
    if start < stop then WalkEnd(start + size, stop, size) else start
  }

  lemma {:induction false} WalkEndIs(start: int, stop: int, size: int)
    requires size > 0
    ensures WalkEnd(start, stop, size) == start + |Range(start, stop, size)| * size
    ensures start <= WalkEnd(start, stop, size)
    decreases stop - start
  {
    if start < stop {
      WalkEndIs(start + size, stop, size);
      var m := |Range(start + size, stop, size)|;
      assert Range(start, stop, size) == [start] + Range(start + size, stop, size);
      assert (m + 1) * size == m * size + size;
    }
  }

  /** Slices of one size taken at start, start + size, ... below stop
      concatenate to the stretch of xs from start to the end of the last
      slice. */
  lemma {:induction false} FlattenSlices<T>(xs: seq<T>, start: int, stop: int, size: int)
    requires 0 <= start && stop <= |xs| && size > 0
    ensures Flatten(Slices(xs, Range(start, stop, size), size))
      == xs[Min(start, |xs|)..Min(start + |Range(start, stop, size)| * size, |xs|)]
  {
    WalkEndIs(start, stop, size);
    FlattenWalk(xs, start, stop, size);
  }

  lemma {:induction false} FlattenWalk<T>(xs: seq<T>, start: int, stop: int, size: int)
    requires 0 <= start && stop <= |xs| && size > 0
    ensures start <= WalkEnd(start, stop, size)
    ensures Flatten(Slices(xs, Range(start, stop, size), size))
      == xs[Min(start, |xs|)..Min(WalkEnd(start, stop, size), |xs|)]
    decreases stop - start
  {
    var r := Range(start, stop, size);
    if start < stop {
      var rest := Range(start + size, stop, size);
      FlattenWalk(xs, start + size, stop, size);
      assert r == [start] + rest;
      FlattenStep(xs, start, size, rest, Min(WalkEnd(start, stop, size), |xs|));
    } else {
      assert r == [];
    }
  }

  /** One more slice in front of slices that cover xs[mid..end], where the
      new slice ends at mid, covers xs[start..end]. */
  lemma FlattenStep<T>(xs: seq<T>, start: int, size: int, rest: seq<int>, end: int)
    requires 0 <= start < |xs| && size > 0
    requires Min(start + size, |xs|) <= end <= |xs|
    requires Flatten(Slices(xs, rest, size)) == xs[Min(start + size, |xs|)..end]
    ensures Flatten(Slices(xs, [start] + rest, size)) == xs[start..end]
  {
    var l := Slices(xs, [start] + rest, size);
    SlicesCons(xs, start, rest, size);
    assert Flatten(l) == l[0] + Flatten(l[1..]);
    assert l[1..] == Slices(xs, rest, size);
    SliceIs(xs, start, size);
    assert xs[start..end] == xs[start..Min(start + size, |xs|)] + xs[Min(start + size, |xs|)..end];
  }

  /** The chunks as written concatenate to the whole list, except that the
      last element is dropped when the chunk size divides len(xs) - 1 (for
      instance when the count equals the length). */
  lemma ChunksCover<T>(xs: seq<T>, n: int)
    requires 0 < n <= |xs|
    ensures Chunks(xs, n).Ok?
    ensures Flatten(Chunks(xs, n).value)
      == if (|xs| - 1) % FloorDiv(|xs|, n) == 0 then xs[..|xs| - 1] else xs
  {
    ChunkSizeSign(|xs|, n);
    var size := FloorDiv(|xs|, n);
    assert Chunks(xs, n) == Ok(Slices(xs, Range(0, |xs| - 1, size), size));
    FlattenSlices(xs, 0, |xs| - 1, size);
    CountEnd(|xs| - 1, size);
  }

  /** The walk 0, size, 2 * size, ... below a ends exactly at a when size
      divides a, and beyond a otherwise. */
  lemma CountEnd(a: int, size: int)
    requires a >= 0 && size >= 1
    ensures a % size == 0 ==> |Range(0, a, size)| * size == a
    ensures a % size != 0 ==> |Range(0, a, size)| * size > a
  {
    var m := |Range(0, a, size)|;
    RangeCount(a, size);
    if a % size == 0 {
      var q := a / size;
      MultipleIs(a, size);
      if q >= 1 {
        MulMono(q - 1, q, size);
      }
      CountUnique(m, q, size, a);
    } else {
      NotMultipleBound(m, a, size);
    }
  }

  /** The corrected chunker raises in the same cases, and its chunks
      concatenate to the whole list. */
  lemma CoveringChunksCover<T>(xs: seq<T>, n: int)
    ensures CoveringChunks(xs, n).Fail? <==> Chunks(xs, n).Fail?
    ensures 0 < n <= |xs| ==> CoveringChunks(xs, n).Ok? && Flatten(CoveringChunks(xs, n).value) == xs
  {
    if n != 0 {
      ChunkSizeSign(|xs|, n);
      if 0 < n <= |xs| {
        FlattenSlices(xs, 0, |xs|, FloorDiv(|xs|, n));
      }
    }
  }

  /** Where the chunks as written already reach the end of the list, the
      corrected chunker returns the same chunks. */
  lemma CoveringChunksAgree<T>(xs: seq<T>, n: int)
    requires 0 < n <= |xs| && (|xs| - 1) % FloorDiv(|xs|, n) != 0
    ensures CoveringChunks(xs, n) == Chunks(xs, n)
  {
    ChunkSizeSign(|xs|, n);
    var size := FloorDiv(|xs|, n);
    assert |Range(0, |xs| - 1, size)| == |Range(0, |xs|, size)| by {
      var m := |Range(0, |xs| - 1, size)|;
      CountEnd(|xs| - 1, size);
      RangeCount(|xs| - 1, size);
      RangeCount(|xs|, size);
      CountUnique(m, |Range(0, |xs|, size)|, size, |xs|);
    }
    SameCountSameRange(|xs| - 1, |xs|, size);
  }

  lemma SameCountSameRange(a: int, b: int, size: int)
    requires size >= 1 && |Range(0, a, size)| == |Range(0, b, size)|
    ensures Range(0, a, size) == Range(0, b, size)
  {
    var r, t := Range(0, a, size), Range(0, b, size);
    assert forall k :: 0 <= k < |r| ==> r[k] == k * size == t[k];
  }

  // ---------------------------------------------------------------------
  // Examples

  /** Six items in three chunks: [[0, 1], [2, 3], [4, 5]]. */
  lemma SixInThree(xs: seq<int>)
    requires xs == [0, 1, 2, 3, 4, 5]
    ensures Chunks(xs, 3) == Ok([[0, 1], [2, 3], [4, 5]])
  {
    ChunksShape(xs, 3);
    var c := Chunks(xs, 3).value;
    assert FloorDiv(|xs|, 3) == 2;
    CountUnique(|c|, 3, 2, 5);
    assert c[0] == xs[0..Min(2, 6)] == [0, 1];
    assert c[1] == xs[1 * 2..Min(1 * 2 + 2, 6)] == [2, 3];
    assert c[2] == xs[2 * 2..Min(2 * 2 + 2, 6)] == [4, 5];
    assert c == [c[0], c[1], c[2]];
  }

  /** Three items in three chunks: the last item is lost. */
  lemma ThreeInThree(xs: seq<int>)
    requires xs == [0, 1, 2]
    ensures Chunks(xs, 3) == Ok([[0], [1]])
  {
    ChunksShape(xs, 3);
    var c := Chunks(xs, 3).value;
    assert FloorDiv(|xs|, 3) == 1;
    CountUnique(|c|, 2, 1, 2);
    assert c[0] == xs[0..Min(1, 3)] == [0];
    assert c[1] == xs[1 * 1..Min(1 * 1 + 1, 3)] == [1];
    assert c == [c[0], c[1]];
  }

  /** One item in one chunk: no chunk at all, since range(0, 0, 1) is
      empty. */
  lemma OneInOne(xs: seq<int>)
    requires |xs| == 1
    ensures Chunks(xs, 1) == Ok([])
  {
    assert FloorDiv(|xs|, 1) == 1;
    assert Range(0, |xs| - 1, 1) == [];
    assert Slices(xs, [], 1) == [];
  }

  /** Six items in seven chunks raise. */
  lemma SixInSeven(xs: seq<int>)
    requires |xs| == 6
    ensures Chunks(xs, 7) == Fail(ZeroStep)
  {
    ChunksErrors(xs, 7);
  }
}
