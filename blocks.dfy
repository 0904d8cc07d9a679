/**
 * The block list of the arena allocator as a value.
 *
 * The allocator keeps an address-ordered, doubly linked list of nodes, each
 * recording a run of the arena: where it starts, how many bytes it spans and
 * whether it is FREE or USED.  Here the list is a sequence in list order and
 * an address is an offset from the arena's base.  This module defines what a
 * well-formed list is and, as functions, the two ways the allocator rewrites
 * it: splitting a matched block and marking a block free.
 */
module Blocks {
  import opened Wrappers

  /** One node of the list: the bytes [start, start + size), FREE when !used. */
  datatype Block = Block(start: nat, size: nat, used: bool)

  /** The first address after a block. */
  function End(b: Block): nat
  {
    b.start + b.size
  }

  /** Rounds up to a multiple of 4: ALIGN4, applied to the pool and to every request. */
  function Align4(n: nat): (r: nat)
    ensures r % 4 == 0
    ensures n <= r < n + 4
  {
    (n + 3) / 4 * 4
  }

  /** A block the search may take for a request of `req` bytes: FREE and big enough. */
  predicate Fits(b: Block, req: nat)
  {
    !b.used && b.size >= req
  }

  /** Each block begins where the one before it ends. */
  predicate Contiguous(bs: seq<Block>)
  {
    forall k :: 0 < k < |bs| ==> bs[k].start == End(bs[k - 1])
  }

  /**
   * The list partitions an arena of `capacity` bytes: contiguous, the first
   * block at the base, the last ending at the capacity.  Only an emptied
   * allocator (before init or after destroy) has no blocks.
   */
  predicate Partition(bs: seq<Block>, capacity: nat)
  {
    Contiguous(bs) &&
    if bs == [] then capacity == 0 else bs[0].start == 0 && End(bs[|bs| - 1]) == capacity
  }

  /** Every block size is a multiple of 4. */
  predicate Aligned(bs: seq<Block>)
  {
    forall k :: 0 <= k < |bs| ==> bs[k].size % 4 == 0
  }

  /** The sum of all block sizes. */
  function Sum(bs: seq<Block>): nat
  {
    if bs == [] then 0 else bs[0].size + Sum(bs[1..])
  }

  /** The bytes held by FREE blocks. */
  function FreeBytes(bs: seq<Block>): nat
  {
    if bs == [] then 0 else (if bs[0].used then 0 else bs[0].size) + FreeBytes(bs[1..])
  }

  /** The sizes of a contiguous list add up to the distance it spans. */
  lemma {:induction false} ContiguousSum(bs: seq<Block>)
    requires Contiguous(bs) && bs != []
    ensures Sum(bs) == End(bs[|bs| - 1]) - bs[0].start
  {
    if |bs| > 1 {
      assert Contiguous(bs[1..]) by {
        forall k | 0 < k < |bs[1..]| ensures bs[1..][k].start == End(bs[1..][k - 1]) {
          assert bs[1..][k] == bs[k + 1] && bs[1..][k - 1] == bs[k];
        }
      }
      ContiguousSum(bs[1..]);
      assert bs[1..][|bs[1..]| - 1] == bs[|bs| - 1];
    }
  }

  /** The sum of sizes equals the capacity in every well-formed list. */
  lemma PartitionSum(bs: seq<Block>, capacity: nat)
    requires Partition(bs, capacity)
    ensures Sum(bs) == capacity
  {
    if bs != [] {
      ContiguousSum(bs);
    }
  }

  /** Blocks are in address order: an earlier block ends no later than a later one starts. */
  lemma {:induction false} ContiguousOrdered(bs: seq<Block>, i: nat, j: nat)
    requires Contiguous(bs) && i < j < |bs|
    ensures End(bs[i]) <= bs[j].start
  {
    if i + 1 < j {
      ContiguousOrdered(bs, i, j - 1);
    }
  }

  /** A block lies within the span from any earlier block's start to any later block's end. */
  lemma ContiguousSpan(bs: seq<Block>, i: nat, j: nat, k: nat)
    requires Contiguous(bs) && i <= j <= k < |bs|
    ensures bs[i].start <= bs[j].start && End(bs[j]) <= End(bs[k])
  {
    if i < j {
      ContiguousOrdered(bs, i, j);
    }
    if j < k {
      ContiguousOrdered(bs, j, k);
    }
  }

  /** No two distinct blocks of a well-formed list share a byte. */
  lemma Disjoint(bs: seq<Block>, i: nat, j: nat)
    requires Contiguous(bs) && i < |bs| && j < |bs| && i != j
    ensures End(bs[i]) <= bs[j].start || End(bs[j]) <= bs[i].start
  {
    if i < j {
      ContiguousOrdered(bs, i, j);
    } else {
      ContiguousOrdered(bs, j, i);
    }
  }

  lemma {:induction false} FreeBytesAppend(a: seq<Block>, b: seq<Block>)
    ensures FreeBytes(a + b) == FreeBytes(a) + FreeBytes(b)
  {
    if a != [] {
      assert (a + b)[1..] == a[1..] + b;
      FreeBytesAppend(a[1..], b);
    } else {
      assert a + b == b;
    }
  }

  lemma {:induction false} SumAppend(a: seq<Block>, b: seq<Block>)
    ensures Sum(a + b) == Sum(a) + Sum(b)
  {
    if a != [] {
      assert (a + b)[1..] == a[1..] + b;
      SumAppend(a[1..], b);
    } else {
      assert a + b == b;
    }
  }

  // ---------------------------------------------------------------- split

  /** What is left of block `b` after `req` bytes are carved from its front. */
  function Leftover(b: Block, req: nat): int
  {
    b.size - req
  }

  /**
   * What block `b` becomes for a request of `req` bytes: a USED block of
   * exactly `req` bytes, followed by a FREE block holding the rest when the
   * leftover is positive.
   */
  function Piece(b: Block, req: nat): seq<Block>
    requires b.size >= req
  {
    if Leftover(b, req) > 0 then [Block(b.start, req, true), Block(b.start + req, b.size - req, false)]
    else [Block(b.start, req, true)]
  }

  /** The allocator's split of block `i` for a request of `req` bytes: the block is replaced by its piece. */
  function Split(bs: seq<Block>, i: nat, req: nat): seq<Block>
    requires i < |bs| && bs[i].size >= req
  {
    bs[..i] + Piece(bs[i], req) + bs[i + 1..]
  }

  /**
   * A split changes exactly the matched block, inserts the leftover block
   * right after it exactly when the leftover is positive, and shifts the
   * blocks after it by that one place, otherwise unchanged.
   */
  lemma SplitShape(bs: seq<Block>, i: nat, req: nat)
    requires i < |bs| && bs[i].size >= req
    ensures var r := Split(bs, i, req);
      var d := if bs[i].size > req then 1 else 0;
      |r| == |bs| + d &&
      r[i] == Block(bs[i].start, req, true) &&
      (d == 1 ==> r[i + 1] == Block(bs[i].start + req, bs[i].size - req, false)) &&
      (forall j :: 0 <= j < i ==> r[j] == bs[j]) &&
      (forall j :: i < j < |bs| ==> r[j + d] == bs[j])
  {
    var p := Piece(bs[i], req);
    var r := Split(bs, i, req);
    var d := if bs[i].size > req then 1 else 0;
    assert |p| == d + 1;
    assert r == bs[..i] + (p + bs[i + 1..]);
    forall j | i < j < |bs| ensures r[j + d] == bs[j] {
      assert r[j + d] == (p + bs[i + 1..])[j + d - i];
    }
  }

  /** A list is its prefix, its block `i` and its suffix put back together. */
  lemma Reassemble(bs: seq<Block>, i: nat)
    requires i < |bs|
    ensures bs[..i] + [bs[i]] + bs[i + 1..] == bs
  {
  }

  /** Replacing block `b` by a contiguous run spanning exactly its bytes keeps a list contiguous. */
  lemma ReplaceContiguous(pre: seq<Block>, b: Block, p: seq<Block>, post: seq<Block>)
    requires Contiguous(pre + [b] + post) && Contiguous(p) && p != []
    requires p[0].start == b.start && End(p[|p| - 1]) == End(b)
    ensures Contiguous(pre + p + post)
  {
    var x := pre + [b] + post;
    var y := pre + p + post;
    var n, m := |pre|, |p|;
    forall k | 0 < k < |y| ensures y[k].start == End(y[k - 1]) {
      if k < n {
        assert y[k] == x[k] && y[k - 1] == x[k - 1];
      } else if k == n {
        assert y[k] == p[0] && y[k - 1] == x[k - 1] && x[k] == b;
      } else if k < n + m {
        assert y[k] == p[k - n] && y[k - 1] == p[k - n - 1];
      } else if k == n + m {
        assert y[k] == x[n + 1] && y[k - 1] == p[m - 1] && x[n] == b;
      } else {
        assert y[k] == x[k - m + 1] && y[k - 1] == x[k - m];
      }
    }
  }

  /** Replacing a block by blocks whose sizes are multiples of 4 keeps a list aligned. */
  lemma ReplaceAligned(pre: seq<Block>, b: Block, p: seq<Block>, post: seq<Block>)
    requires Aligned(pre + [b] + post) && Aligned(p)
    ensures Aligned(pre + p + post)
  {
    var x := pre + [b] + post;
    var y := pre + p + post;
    var n, m := |pre|, |p|;
    forall k | 0 <= k < |y| ensures y[k].size % 4 == 0 {
      if k < n {
        assert y[k] == x[k];
      } else if k < n + m {
        assert y[k] == p[k - n];
      } else {
        assert y[k] == x[k - m + 1];
      }
    }
  }

  /** The first and the last block of a list with a non-empty middle. */
  lemma ReplaceEnds(pre: seq<Block>, b: Block, p: seq<Block>, post: seq<Block>)
    requires p != []
    ensures (pre + p + post)[0] == if pre != [] then pre[0] else p[0]
    ensures (pre + [b] + post)[0] == if pre != [] then pre[0] else b
    ensures var y := pre + p + post; y[|y| - 1] == if post != [] then post[|post| - 1] else p[|p| - 1]
    ensures var x := pre + [b] + post; x[|x| - 1] == if post != [] then post[|post| - 1] else b
  {
  }

  /** A split keeps the list a partition of the same arena, with sizes still multiples of 4. */
  lemma SplitValid(bs: seq<Block>, capacity: nat, i: nat, req: nat)
    requires Partition(bs, capacity) && Aligned(bs) && req % 4 == 0
    requires i < |bs| && bs[i].size >= req
    ensures Partition(Split(bs, i, req), capacity)
    ensures Aligned(Split(bs, i, req))
  {
    var pre, b, post := bs[..i], bs[i], bs[i + 1..];
    var p := Piece(b, req);
    Reassemble(bs, i);
    ReplaceContiguous(pre, b, p, post);
    ReplaceAligned(pre, b, p, post);
    ReplaceEnds(pre, b, p, post);
  }

  /** The totals of a list put together from three pieces. */
  lemma ThreeTotals(pre: seq<Block>, p: seq<Block>, post: seq<Block>)
    ensures Sum(pre + p + post) == Sum(pre) + Sum(p) + Sum(post)
    ensures FreeBytes(pre + p + post) == FreeBytes(pre) + FreeBytes(p) + FreeBytes(post)
  {
    SumAppend(pre, p);
    SumAppend(pre + p, post);
    FreeBytesAppend(pre, p);
    FreeBytesAppend(pre + p, post);
  }

  /** Cutting a list at `i`: the totals of the pieces add up. */
  lemma CutTotals(bs: seq<Block>, i: nat)
    requires i < |bs|
    ensures Sum(bs) == Sum(bs[..i]) + bs[i].size + Sum(bs[i + 1..])
    ensures FreeBytes(bs) == FreeBytes(bs[..i]) + FreeBytes([bs[i]]) + FreeBytes(bs[i + 1..])
  {
    Reassemble(bs, i);
    ThreeTotals(bs[..i], [bs[i]], bs[i + 1..]);
    assert [bs[i]][1..] == [];
  }

  /** A piece holds the block's bytes, `req` of them USED. */
  lemma PieceTotals(b: Block, req: nat)
    requires b.size >= req
    ensures Sum(Piece(b, req)) == b.size
    ensures FreeBytes(Piece(b, req)) + req == b.size
  {
    var p := Piece(b, req);
    if Leftover(b, req) > 0 {
      var q := [Block(b.start + req, b.size - req, false)];
      assert p[1..] == q && q[1..] == [];
      assert Sum(q) == q[0].size + Sum(q[1..]) == b.size - req;
      assert FreeBytes(q) == q[0].size + FreeBytes(q[1..]) == b.size - req;
    } else {
      assert p[1..] == [];
    }
  }

  /** A split keeps the sum of sizes and takes exactly `req` bytes out of the FREE ones. */
  lemma SplitTotals(bs: seq<Block>, i: nat, req: nat)
    requires i < |bs| && Fits(bs[i], req)
    ensures Sum(Split(bs, i, req)) == Sum(bs)
    ensures FreeBytes(Split(bs, i, req)) + req == FreeBytes(bs)
  {
    CutTotals(bs, i);
    ThreeTotals(bs[..i], Piece(bs[i], req), bs[i + 1..]);
    PieceTotals(bs[i], req);
  }

  // ----------------------------------------------------------------- free

  /** The first block, in list order, that starts at address `ptr`, or None. */
  function StartIndex(bs: seq<Block>, ptr: nat): (r: Option<nat>)
    ensures r.None? <==> forall j :: 0 <= j < |bs| ==> bs[j].start != ptr
    ensures r.Some? ==> r.value < |bs| && bs[r.value].start == ptr &&
                        forall j :: 0 <= j < r.value ==> bs[j].start != ptr
  {
    if bs == [] then None
    else if bs[0].start == ptr then Some(0)
    else match StartIndex(bs[1..], ptr)
      case None => None
      case Some(k) => Some(k + 1)
  }

  /** Free of `ptr`: the first block starting at `ptr` is marked FREE; no match, no change. */
  function MarkFree(bs: seq<Block>, ptr: nat): (r: seq<Block>)
    ensures |r| == |bs|
  {
    match StartIndex(bs, ptr)
    case None => bs
    case Some(i) => bs[i := bs[i].(used := false)]
  }

  /**
   * Free never changes the number, the order, the starts or the sizes of the
   * blocks; it clears the USED tag of exactly the first block starting at
   * `ptr`.
   */
  lemma MarkFreeShape(bs: seq<Block>, ptr: nat)
    ensures var r := MarkFree(bs, ptr);
      |r| == |bs| &&
      forall j :: 0 <= j < |bs| ==>
        r[j].start == bs[j].start && r[j].size == bs[j].size &&
        (r[j].used <==> bs[j].used && !(bs[j].start == ptr && forall k :: 0 <= k < j ==> bs[k].start != ptr))
  {
  }

  /** Free leaves the place of every block where it was. */
  lemma MarkFreeSpan(bs: seq<Block>, ptr: nat, j: nat)
    requires j < |bs|
    ensures MarkFree(bs, ptr)[j].start == bs[j].start && MarkFree(bs, ptr)[j].size == bs[j].size
  {
  }

  /** Free keeps the list a partition of the same arena with the same sizes. */
  lemma MarkFreeValid(bs: seq<Block>, capacity: nat, ptr: nat)
    requires Partition(bs, capacity) && Aligned(bs)
    ensures Partition(MarkFree(bs, ptr), capacity) && Aligned(MarkFree(bs, ptr))
  {
    MarkFreeShape(bs, ptr);
  }

  /** Marking one block FREE adds its bytes to the FREE total when it was USED. */
  lemma MarkFreeBytes(bs: seq<Block>, i: nat)
    requires i < |bs|
    ensures FreeBytes(bs[i := bs[i].(used := false)]) == FreeBytes(bs) + (if bs[i].used then bs[i].size else 0)
  {
    var r := bs[i := bs[i].(used := false)];
    CutTotals(bs, i);
    CutTotals(r, i);
    assert r[..i] == bs[..i] && r[i + 1..] == bs[i + 1..];
  }

  /**
   * Allocating from block `i` and then freeing the returned address gives
   * back every byte: the FREE total and the sum of sizes are as before.  The
   * split itself is not undone: the list keeps one more block exactly when
   * there was a leftover.  `i` must be the first block at its address, as a
   * zero-byte block in front of it would be freed instead.
   */
  lemma AllocFreeRoundTrip(bs: seq<Block>, i: nat, req: nat)
    requires i < |bs| && Fits(bs[i], req)
    requires StartIndex(bs, bs[i].start) == Some(i)
    ensures var r := MarkFree(Split(bs, i, req), bs[i].start);
      FreeBytes(r) == FreeBytes(bs) && Sum(r) == Sum(bs) &&
      |r| == |bs| + (if bs[i].size > req then 1 else 0) &&
      !r[i].used && r[i].start == bs[i].start && r[i].size == req
  {
    var s := Split(bs, i, req);
    SplitShape(bs, i, req);
    SplitTotals(bs, i, req);
    assert StartIndex(s, bs[i].start) == Some(i);
    MarkFreeBytes(s, i);
    var r := s[i := s[i].(used := false)];
    CutTotals(s, i);
    CutTotals(r, i);
    assert r[..i] == s[..i] && r[i + 1..] == s[i + 1..];
  }
}
