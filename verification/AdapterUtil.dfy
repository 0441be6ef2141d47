/** packages/core/src/adapters/util.ts: `chunk`. */
module AdapterUtil {
  function Flatten<T>(chunks: seq<seq<T>>): seq<T> {
    if chunks == [] then [] else chunks[0] + Flatten(chunks[1..])
  }

  lemma {:induction false} FlattenSnoc<T>(chunks: seq<seq<T>>, last: seq<T>)
    ensures Flatten(chunks + [last]) == Flatten(chunks) + last
  {
    if chunks == [] {
      assert Flatten([last]) == last + Flatten<T>([]);
    } else {
      FlattenSnoc(chunks[1..], last);
      assert (chunks + [last])[1..] == chunks[1..] + [last];
    }
  }

  /** Every chunk but the last is full, the last is not empty, and nothing is lost or reordered. */
  ghost predicate IsChunking<T>(chunks: seq<seq<T>>, items: seq<T>, size: int) {
    && Flatten(chunks) == items
    && (forall i :: 0 <= i < |chunks| ==> 1 <= |chunks[i]| <= size)
    && (forall i :: 0 <= i < |chunks| - 1 ==> |chunks[i]| == size)
  }

  /** The three conditions leave no choice: a list has one chunking of each size. */
  lemma {:induction false} ChunkingUnique<T>(a: seq<seq<T>>, b: seq<seq<T>>, items: seq<T>, size: int)
    requires IsChunking(a, items, size) && IsChunking(b, items, size)
    ensures a == b
  {
    if a == [] || b == [] {
      assert items == [];
    } else {
      FirstLength(a, items, size);
      FirstLength(b, items, size);
      assert a[0] == items[..|a[0]|] == b[0];
      assert Flatten(a[1..]) == items[|a[0]|..] == Flatten(b[1..]);
      ChunkingUnique(a[1..], b[1..], items[|a[0]|..], size);
    }
  }

  lemma FirstLength<T>(a: seq<seq<T>>, items: seq<T>, size: int)
    requires IsChunking(a, items, size) && a != []
    ensures |a[0]| == if |items| < size then |items| else size
    ensures IsChunking(a[1..], items[|a[0]|..], size)
  {
    assert Flatten(a) == a[0] + Flatten(a[1..]);
    if |a| == 1 {
      assert Flatten(a[1..]) == [];
    }
  }

  /** One turn of the `reduce`: the item joins the last chunk while that has room, else it opens a new one. */
  function Grow<T>(chunks: seq<seq<T>>, x: T, size: int): seq<seq<T>> {
    if chunks != [] && |chunks[|chunks| - 1]| < size
    then chunks[..|chunks| - 1] + [chunks[|chunks| - 1] + [x]]
    else chunks + [[x]]
  }

  lemma GrowKeepsChunking<T>(chunks: seq<seq<T>>, items: seq<T>, x: T, size: int)
    requires IsChunking(chunks, items, size) && size >= 1
    ensures IsChunking(Grow(chunks, x, size), items + [x], size)
  {
    if chunks != [] && |chunks[|chunks| - 1]| < size {
      var front, last := chunks[..|chunks| - 1], chunks[|chunks| - 1];
      assert chunks == front + [last];
      FlattenSnoc(front, last);
      FlattenSnoc(front, last + [x]);
    } else {
      FlattenSnoc(chunks, [x]);
    }
  }

  lemma {:induction false} ChunkingLength<T>(chunks: seq<seq<T>>, items: seq<T>, size: int)
    requires IsChunking(chunks, items, size) && size >= 1
    ensures chunks == [] <==> items == []
    ensures chunks != [] ==> |items| == (|chunks| - 1) * size + |chunks[|chunks| - 1]|
  {
    if chunks != [] {
      FirstLength(chunks, items, size);
      ChunkingLength(chunks[1..], items[|chunks[0]|..], size);
      if |chunks| > 1 {
        assert (|chunks| - 1) * size == (|chunks| - 2) * size + size;
      }
    }
  }

  /**
   What `chunk` gives for any size. An index that is negative or no number becomes a property of the array that nobody
   reads, so a negative size keeps the first item only and the size 0 none.
   */
  ghost predicate Chunked<T>(chunks: seq<seq<T>>, items: seq<T>, size: int) {
    && (size >= 1 ==> IsChunking(chunks, items, size))
    && (size == 0 ==> chunks == [])
    && (size < 0 ==> chunks == if items == [] then [] else [[items[0]]])
  }

  /** `Math.floor(i / n)` */
  function FloorDiv(i: nat, n: int): (q: int)
    requires n != 0
    ensures n > 0 ==> q == i / n
    ensures n < 0 ==> q <= 0 && (q == 0 <==> i == 0)
  {
    if n > 0 then i / n else -((i - n - 1) / -n)
  }

  method Chunk<T>(items: seq<T>, chunkSize: int) returns (chunked: seq<seq<T>>)
    ensures Chunked(chunked, items, chunkSize)
  {
    chunked := [];
    for i := 0 to |items|
      invariant Chunked(chunked, items[..i], chunkSize)
    {
      assert items[..i + 1] == items[..i] + [items[i]];
      if chunkSize >= 1 {
        ChunkIndexIsLast(chunked, items[..i], chunkSize);
        GrowKeepsChunking(chunked, items[..i], items[i], chunkSize);
      }
      ghost var grown := Grow(chunked, items[i], chunkSize);
      if chunkSize != 0 {
        var chunkIndex := FloorDiv(i, chunkSize);
        if 0 <= chunkIndex < |chunked| {
          chunked := chunked[chunkIndex := chunked[chunkIndex] + [items[i]]];
        } else if chunkIndex == |chunked| {
          chunked := chunked + [[items[i]]];
        }
      }
      assert chunkSize >= 1 ==> chunked == grown;
    }
    assert items[..|items|] == items;
  }

  /** `Math.floor(i / chunkSize)` addresses the last chunk exactly while that chunk has room. */
  lemma ChunkIndexIsLast<T>(chunks: seq<seq<T>>, items: seq<T>, size: int)
    requires IsChunking(chunks, items, size) && size >= 1
    ensures |items| / size ==
            if chunks != [] && |chunks[|chunks| - 1]| < size then |chunks| - 1 else |chunks|
  {
    ChunkingLength(chunks, items, size);
    if chunks == [] {
      QuotientUnique(|items|, size, 0, 0);
    } else {
      var q, r := |chunks| - 1, |chunks[|chunks| - 1]|;
      if r < size {
        QuotientUnique(|items|, size, q, r);
      } else {
        assert (q + 1) * size == q * size + size;
        QuotientUnique(|items|, size, q + 1, 0);
      }
    }
  }

  lemma QuotientUnique(i: int, n: int, q: int, r: int)
    requires n >= 1 && 0 <= r < n && i == q * n + r
    ensures i / n == q
  {
    var d := i / n - q;
    assert d * n == r - i % n by {
      assert i == (i / n) * n + i % n;
      assert d * n == (i / n) * n - q * n;
    }
    MultipleOutOfRange(d, n);
  }

  lemma MultipleOutOfRange(d: int, n: int)
    requires n >= 1
    ensures d >= 1 ==> d * n >= n
    ensures d <= -1 ==> d * n <= -n
  {
  }
}
