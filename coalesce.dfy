/**
 * Coalescing of FREE neighbours.  The comment above mavalloc_free promises
 * to combine consecutive FREE blocks, but the code only marks the block
 * FREE.  This module states the promised behaviour on its own, so that the
 * allocator's mark-only free stays as the code has it: a pass that merges
 * every run of address-adjacent FREE blocks into one block.
 */
module Coalescing {
  import opened Wrappers
  import opened Blocks

  /** No two neighbouring blocks are both FREE. */
  predicate NoAdjacentFree(bs: seq<Block>)
  {
    forall k :: 0 < k < |bs| ==> bs[k - 1].used || bs[k].used
  }

  /** The single FREE block that two neighbouring FREE blocks `a` and `b` become. */
  function Merge(a: Block, b: Block): Block
  {
    Block(a.start, a.size + b.size, false)
  }

  /** Merges each run of neighbouring FREE blocks into one FREE block spanning the run. */
  function Coalesce(bs: seq<Block>): seq<Block>
    decreases |bs|
  {
    if |bs| < 2 then bs
    else if !bs[0].used && !bs[1].used then Coalesce([Merge(bs[0], bs[1])] + bs[2..])
    else [bs[0]] + Coalesce(bs[1..])
  }

  /** The USED blocks in list order. */
  function UsedBlocks(bs: seq<Block>): seq<Block>
  {
    if bs == [] then [] else (if bs[0].used then [bs[0]] else []) + UsedBlocks(bs[1..])
  }

  /** Merging the first two blocks of a contiguous list keeps its first start, its end, contiguity and alignment. */
  lemma MergeHeadShape(bs: seq<Block>)
    requires Contiguous(bs) && |bs| >= 2
    ensures var m := [Merge(bs[0], bs[1])] + bs[2..];
      Contiguous(m) && m[0].start == bs[0].start && End(m[|m| - 1]) == End(bs[|bs| - 1]) &&
      (Aligned(bs) ==> Aligned(m))
  {
    var m := [Merge(bs[0], bs[1])] + bs[2..];
    forall k | 0 < k < |m| ensures m[k].start == End(m[k - 1]) {
      assert m[k] == bs[k + 1];
      if k > 1 { assert m[k - 1] == bs[k]; }
    }
    assert m[|m| - 1] == (if |m| == 1 then m[0] else bs[|bs| - 1]);
    if Aligned(bs) {
      forall k | 0 <= k < |m| ensures m[k].size % 4 == 0 {
        if k > 0 { assert m[k] == bs[k + 1]; }
      }
    }
  }

  /** The tail of a contiguous list is contiguous and has the same last block. */
  lemma TailContiguous(bs: seq<Block>)
    requires Contiguous(bs) && |bs| >= 2
    ensures Contiguous(bs[1..]) && bs[1..][|bs| - 2] == bs[|bs| - 1]
    ensures Aligned(bs) ==> Aligned(bs[1..])
  {
    var t := bs[1..];
    forall k | 0 < k < |t| ensures t[k].start == End(t[k - 1]) {
      assert t[k] == bs[k + 1] && t[k - 1] == bs[k];
    }
  }

  /** Putting a block in front of a coalesced list that starts where it ends. */
  lemma ConsShape(b: Block, rt: seq<Block>)
    requires rt != [] && rt[0].start == End(b) && Contiguous(rt) && NoAdjacentFree(rt)
    requires b.used || rt[0].used
    ensures Contiguous([b] + rt) && NoAdjacentFree([b] + rt)
    ensures b.size % 4 == 0 && Aligned(rt) ==> Aligned([b] + rt)
  {
    var r := [b] + rt;
    forall k | 0 < k < |r| ensures r[k].start == End(r[k - 1]) && (r[k - 1].used || r[k].used) {
      if k > 1 { assert r[k] == rt[k - 1] && r[k - 1] == rt[k - 2]; }
    }
    if b.size % 4 == 0 && Aligned(rt) {
      forall k | 0 <= k < |r| ensures r[k].size % 4 == 0 {
        if k > 0 { assert r[k] == rt[k - 1]; }
      }
    }
  }

  /**
   * `r` has the shape of a coalesced `bs`: it keeps the first start and the
   * first block's tag, the end and contiguity, has no more blocks, keeps
   * sizes multiples of 4, and has no two FREE neighbours.
   */
  predicate CoalescedShape(bs: seq<Block>, r: seq<Block>)
    requires bs != []
  {
    r != [] && |r| <= |bs| && Contiguous(r) && NoAdjacentFree(r) &&
    r[0].start == bs[0].start && r[0].used == bs[0].used &&
    End(r[|r| - 1]) == End(bs[|bs| - 1]) &&
    (Aligned(bs) ==> Aligned(r))
  }

  /** Coalescing a contiguous list gives a list of that shape. */
  lemma {:induction false} CoalesceShape(bs: seq<Block>)
    requires Contiguous(bs) && bs != []
    ensures CoalescedShape(bs, Coalesce(bs))
    decreases |bs|, 1
  {
    if |bs| >= 2 {
      if !bs[0].used && !bs[1].used {
        CoalesceShapeMerge(bs);
      } else {
        CoalesceShapeKeep(bs);
      }
    }
  }

  /** The shape when the first two blocks are merged. */
  lemma {:induction false} CoalesceShapeMerge(bs: seq<Block>)
    requires Contiguous(bs) && |bs| >= 2 && !bs[0].used && !bs[1].used
    ensures CoalescedShape(bs, Coalesce(bs))
    decreases |bs|, 0
  {
    var m := [Merge(bs[0], bs[1])] + bs[2..];
    MergeHeadShape(bs);
    CoalesceShape(m);
    assert bs == [bs[0], bs[1]] + bs[2..];
    CoalesceMergeHead(bs[0], bs[1], bs[2..]);
  }

  /** The shape when the first block stays as it is. */
  lemma {:induction false} CoalesceShapeKeep(bs: seq<Block>)
    requires Contiguous(bs) && |bs| >= 2 && (bs[0].used || bs[1].used)
    ensures CoalescedShape(bs, Coalesce(bs))
    decreases |bs|, 0
  {
    var t := bs[1..];
    TailContiguous(bs);
    CoalesceShape(t);
    var rt := Coalesce(t);
    CoalesceKeepHead(bs);
    ConsShape(bs[0], rt);
  }

  /** Coalescing keeps the list a partition of the same arena. */
  lemma CoalesceValid(bs: seq<Block>, capacity: nat)
    requires Partition(bs, capacity) && Aligned(bs)
    ensures Partition(Coalesce(bs), capacity) && Aligned(Coalesce(bs))
    ensures NoAdjacentFree(Coalesce(bs)) && |Coalesce(bs)| <= |bs|
  {
    if bs != [] {
      CoalesceShape(bs);
    }
  }

  /**
   * After a free the list is still contiguous, each block keeps its place,
   * and coalescing it keeps the partition and the alignment.
   */
  lemma FreedMerge(bs: seq<Block>, capacity: nat, ptr: nat, cursor: nat)
    requires Partition(bs, capacity) && Aligned(bs) && cursor < |bs|
    ensures var freed := MarkFree(bs, ptr);
      Contiguous(freed) && freed[cursor].start == bs[cursor].start && freed[cursor].size == bs[cursor].size &&
      Partition(Coalesce(freed), capacity) && Aligned(Coalesce(freed)) && NoAdjacentFree(Coalesce(freed))
  {
    MarkFreeValid(bs, capacity, ptr);
    MarkFreeSpan(bs, ptr, cursor);
    CoalesceValid(MarkFree(bs, ptr), capacity);
  }

  /** Coalescing moves no byte between FREE and USED and leaves every USED block, in order, as it was. */
  lemma {:induction false} CoalesceKeeps(bs: seq<Block>)
    ensures FreeBytes(Coalesce(bs)) == FreeBytes(bs)
    ensures Sum(Coalesce(bs)) == Sum(bs)
    ensures UsedBlocks(Coalesce(bs)) == UsedBlocks(bs)
    decreases |bs|
  {
    if |bs| >= 2 {
      if !bs[0].used && !bs[1].used {
        var m := [Merge(bs[0], bs[1])] + bs[2..];
        CoalesceKeeps(m);
        assert m[1..] == bs[2..] && bs[1..][1..] == bs[2..];
      } else {
        CoalesceKeeps(bs[1..]);
        var r := Coalesce(bs);
        assert r == [bs[0]] + Coalesce(bs[1..]);
        assert r[1..] == Coalesce(bs[1..]);
      }
    }
  }

  /** A list with no FREE neighbours is left as it is. */
  lemma {:induction false} CoalesceNothingToDo(bs: seq<Block>)
    requires NoAdjacentFree(bs)
    ensures Coalesce(bs) == bs
    decreases |bs|
  {
    if |bs| >= 2 {
      assert NoAdjacentFree(bs[1..]) by {
        forall k | 0 < k < |bs[1..]| ensures bs[1..][k - 1].used || bs[1..][k].used {
          assert bs[1..][k - 1] == bs[k] && bs[1..][k] == bs[k + 1];
        }
      }
      CoalesceNothingToDo(bs[1..]);
      assert bs == [bs[0]] + bs[1..];
    }
  }

  /** A USED block in front, or a USED block behind it, keeps the head block out of any merge. */
  lemma CoalesceKeepHead(x: seq<Block>)
    requires |x| >= 2 && (x[0].used || x[1].used)
    ensures Coalesce(x) == [x[0]] + Coalesce(x[1..])
  {
  }

  /** Two FREE blocks at the head are merged first. */
  lemma CoalesceMergeHead(x: Block, y: Block, rest: seq<Block>)
    requires !x.used && !y.used
    ensures Coalesce([x, y] + rest) == Coalesce([Merge(x, y)] + rest)
  {
    assert ([x, y] + rest)[2..] == rest;
  }

  /** The tail of a list without FREE neighbours has none either, and keeps the last block. */
  lemma CleanTail(a: seq<Block>)
    requires NoAdjacentFree(a) && a != []
    ensures NoAdjacentFree(a[1..])
    ensures a[1..] != [] ==> a[1..][|a| - 2] == a[|a| - 1] && (a[0].used || a[1..][0].used)
  {
    var t := a[1..];
    forall k | 0 < k < |t| ensures t[k - 1].used || t[k].used {
      assert t[k - 1] == a[k] && t[k] == a[k + 1];
    }
  }

  /** Splitting off the head of a list put together from two. */
  lemma HeadOfAppend(a: seq<Block>, b: seq<Block>)
    requires a != []
    ensures a + b == [a[0]] + (a[1..] + b)
    ensures (a + b)[1..] == a[1..] + b
    ensures [a[0]] + (a[1..] + b) == a + b
  {
    assert a == [a[0]] + a[1..];
  }

  /** A prefix with no FREE neighbours that ends in a USED block is not touched by coalescing what follows it. */
  lemma {:induction false} CoalescePrefix(a: seq<Block>, b: seq<Block>)
    requires NoAdjacentFree(a) && (a != [] ==> a[|a| - 1].used)
    ensures Coalesce(a + b) == a + Coalesce(b)
    decreases |a|
  {
    if a == [] {
      assert a + b == b;
    } else if |a| == 1 && b == [] {
      assert a + b == a;
    } else {
      var t := a[1..];
      CleanTail(a);
      CoalescePrefix(t, b);
      HeadOfAppend(a, b);
      var x := a + b;
      assert x[0] == a[0] && x[1] == (if t != [] then t[0] else b[0]);
      CoalesceKeepHead(x);
      assert Coalesce(x) == [a[0]] + (t + Coalesce(b));
      HeadOfAppend(a, Coalesce(b));
    }
  }

  /** A FREE block followed by a list with no FREE neighbours that starts USED is left as it is. */
  lemma FreeHeadStays(b: Block, post: seq<Block>)
    requires NoAdjacentFree(post) && (post != [] ==> post[0].used)
    ensures Coalesce([b] + post) == [b] + post
  {
    var x := [b] + post;
    assert NoAdjacentFree(x) by {
      forall k | 0 < k < |x| ensures x[k - 1].used || x[k].used {
        if k > 1 { assert x[k - 1] == post[k - 2] && x[k] == post[k - 1]; }
      }
    }
    CoalesceNothingToDo(x);
  }

  /** The FREE remains of block `i` after it was split and its address freed again. */
  function Remains(b: Block, req: nat): seq<Block>
  {
    if b.size > req then [Block(b.start, req, false), Block(b.start + req, b.size - req, false)]
    else [Block(b.start, req, false)]
  }

  /** Updating the first block of the middle part of a three-part list. */
  lemma UpdateMiddle(pre: seq<Block>, p: seq<Block>, post: seq<Block>, v: Block)
    requires p != []
    ensures (pre + p + post)[|pre| := v] == pre + p[0 := v] + post
  {
  }

  /** Split then mark free: block `i` is replaced by its FREE remains. */
  lemma SplitThenFree(bs: seq<Block>, i: nat, req: nat)
    requires i < |bs| && Fits(bs[i], req)
    requires StartIndex(bs, bs[i].start) == Some(i)
    ensures MarkFree(Split(bs, i, req), bs[i].start) == bs[..i] + Remains(bs[i], req) + bs[i + 1..]
  {
    var b := bs[i];
    var s := Split(bs, i, req);
    SplitShape(bs, i, req);
    assert StartIndex(s, b.start) == Some(i);
    assert MarkFree(s, b.start) == s[i := s[i].(used := false)];
    UpdateMiddle(bs[..i], Piece(b, req), bs[i + 1..], Block(b.start, req, false));
    assert Piece(b, req)[0 := Block(b.start, req, false)] == Remains(b, req);
  }

  /** The blocks in front of a FREE block `i` have no FREE neighbours and, if any, end in a USED one. */
  lemma CleanAround(bs: seq<Block>, i: nat)
    requires NoAdjacentFree(bs) && i < |bs| && !bs[i].used
    ensures NoAdjacentFree(bs[..i]) && (bs[..i] != [] ==> bs[..i][i - 1].used)
    ensures NoAdjacentFree(bs[i + 1..]) && (bs[i + 1..] != [] ==> bs[i + 1..][0].used)
  {
    var pre := bs[..i];
    var post := bs[i + 1..];
    forall k | 0 < k < |pre| ensures pre[k - 1].used || pre[k].used {
      assert pre[k - 1] == bs[k - 1] && pre[k] == bs[k];
    }
    forall k | 0 < k < |post| ensures post[k - 1].used || post[k].used {
      assert post[k - 1] == bs[i + k] && post[k] == bs[i + 1 + k];
    }
    if post != [] {
      assert post[0] == bs[i + 1];
    }
  }

  /** The FREE remains of a block, followed by USED-led clean blocks, merge back into the block. */
  lemma RemainsMerge(b: Block, req: nat, post: seq<Block>)
    requires !b.used && b.size >= req
    requires NoAdjacentFree(post) && (post != [] ==> post[0].used)
    ensures Coalesce(Remains(b, req) + post) == [b] + post
  {
    if b.size > req {
      assert Remains(b, req) + post == [Block(b.start, req, false), Block(b.start + req, b.size - req, false)] + post;
      CoalesceMergeHead(Block(b.start, req, false), Block(b.start + req, b.size - req, false), post);
    } else {
      assert Remains(b, req) + post == [b] + post;
    }
    FreeHeadStays(b, post);
  }

  /** A FREE block's remains between a clean, USED-ended prefix and a clean, USED-led suffix merge back into it. */
  lemma RemainsBetween(pre: seq<Block>, b: Block, req: nat, post: seq<Block>)
    requires !b.used && b.size >= req
    requires NoAdjacentFree(pre) && (pre != [] ==> pre[|pre| - 1].used)
    requires NoAdjacentFree(post) && (post != [] ==> post[0].used)
    ensures Coalesce(pre + Remains(b, req) + post) == pre + [b] + post
  {
    var tail := Remains(b, req) + post;
    assert pre + Remains(b, req) + post == pre + tail;
    assert pre + [b] + post == pre + ([b] + post);
    RemainsMerge(b, req, post);
    CoalescePrefix(pre, tail);
  }

  /**
   * With coalescing, allocating from FREE block `i` and freeing the returned
   * address restores the list exactly, block count included, provided the
   * list had no FREE neighbours to begin with.
   */
  lemma AllocFreeCoalesceRoundTrip(bs: seq<Block>, i: nat, req: nat)
    requires NoAdjacentFree(bs)
    requires i < |bs| && Fits(bs[i], req)
    requires StartIndex(bs, bs[i].start) == Some(i)
    ensures Coalesce(MarkFree(Split(bs, i, req), bs[i].start)) == bs
  {
    SplitThenFree(bs, i, req);
    CleanAround(bs, i);
    RemainsBetween(bs[..i], bs[i], req, bs[i + 1..]);
    Reassemble(bs, i);
  }

  /** Splitting a FREE block keeps a list free of FREE neighbours: its neighbours were USED. */
  lemma SplitKeepsNoAdjacentFree(bs: seq<Block>, i: nat, req: nat)
    requires NoAdjacentFree(bs) && i < |bs| && Fits(bs[i], req)
    ensures NoAdjacentFree(Split(bs, i, req))
  {
    SplitShape(bs, i, req);
    var r := Split(bs, i, req);
    var d := if bs[i].size > req then 1 else 0;
    forall k | 0 < k < |r| ensures r[k - 1].used || r[k].used {
      if k < i {
      } else if k <= i + d {
      } else if k == i + d + 1 {
        assert r[k] == bs[i + 1];
      } else {
        assert r[k] == bs[k - d] && r[k - 1] == bs[k - 1 - d];
      }
    }
  }

  /** One step of coalescing a list headed by `acc`: merge with the next block or move past `acc`. */
  lemma {:induction false} CoalesceStep(acc: Block, rest: seq<Block>)
    requires rest != []
    ensures Coalesce([acc] + rest) ==
      if !acc.used && !rest[0].used then Coalesce([Merge(acc, rest[0])] + rest[1..])
      else [acc] + Coalesce(rest)
  {
    var x := [acc] + rest;
    assert x[0] == acc && x[1] == rest[0] && x[1..] == rest;
    if !acc.used && !rest[0].used {
      assert x == [acc, rest[0]] + rest[1..];
      CoalesceMergeHead(acc, rest[0], rest[1..]);
    } else {
      CoalesceKeepHead(x);
    }
  }

  /**
   * What is left of the walk of `MergeRuns` when the current run is `acc`
   * and block `k` is next: extend the run while both are FREE, otherwise
   * emit it and start a new run at block `k`.
   */
  ghost function Run(acc: Block, bs: seq<Block>, k: nat): seq<Block>
    requires k <= |bs|
    decreases |bs| - k
  {
    if k == |bs| then [acc]
    else if !acc.used && !bs[k].used then Run(Merge(acc, bs[k]), bs, k + 1)
    else [acc] + Run(bs[k], bs, k + 1)
  }

  /** A step of the walk that extends the run: both blocks are FREE. */
  lemma RunExtend(acc: Block, bs: seq<Block>, k: nat)
    requires k < |bs| && !acc.used && !bs[k].used
    ensures Run(acc, bs, k) == Run(Merge(acc, bs[k]), bs, k + 1)
  {
  }

  /** A step of the walk that emits the run: one of the two blocks is USED. */
  lemma RunEmit(acc: Block, bs: seq<Block>, k: nat)
    requires k < |bs| && (acc.used || bs[k].used)
    ensures Run(acc, bs, k) == [acc] + Run(bs[k], bs, k + 1)
  {
  }

  /** The walk computes the coalescing of the run followed by the blocks not yet visited. */
  lemma {:induction false} RunCoalesce(acc: Block, bs: seq<Block>, k: nat)
    requires k <= |bs|
    ensures Run(acc, bs, k) == Coalesce([acc] + bs[k..])
    decreases |bs| - k
  {
    var rest := bs[k..];
    if k == |bs| {
      assert [acc] + rest == [acc];
    } else {
      assert rest[0] == bs[k] && rest[1..] == bs[k + 1..];
      CoalesceStep(acc, rest);
      if !acc.used && !bs[k].used {
        RunCoalesce(Merge(acc, bs[k]), bs, k + 1);
      } else {
        RunCoalesce(bs[k], bs, k + 1);
        assert rest == [bs[k]] + bs[k + 1..];
      }
    }
  }

  /** The whole walk, started at the first block, computes the coalescing of the list. */
  lemma RunFromStart(bs: seq<Block>)
    requires bs != []
    ensures Coalesce(bs) == Run(bs[0], bs, 1)
  {
    RunCoalesce(bs[0], bs, 1);
    assert [bs[0]] + bs[1..] == bs;
  }

  /** Block `i` of `bs` spans all of block `b`. */
  predicate Covers(bs: seq<Block>, i: nat, b: Block)
  {
    i < |bs| && bs[i].start <= b.start && End(b) <= End(bs[i])
  }

  /**
   * The number of run boundaries among blocks 1 to `k`: the places where
   * a block and the one before it are not both FREE.  Coalescing folds
   * block `k` into merged block number `Breaks(bs, k)`.
   */
  function Breaks(bs: seq<Block>, k: nat): nat
    requires k < |bs|
  {
    if k == 0 then 0
    else Breaks(bs, k - 1) + (if bs[k - 1].used || bs[k].used then 1 else 0)
  }

  /**
   * The state of `MergeRuns` before it visits block `k`: the merged blocks
   * `r` emitted so far followed by what is left of the walk give the
   * coalesced list; `acc` is the current run, made of blocks `from` to
   * `k - 1`; and once block `cursor` is behind the current run, `home` is
   * its merged block.
   */
  ghost predicate Walk(bs: seq<Block>, cursor: nat, r: seq<Block>, acc: Block, k: nat, from: nat, home: nat)
    requires cursor < |bs|
  {
    from < k <= |bs| &&
    Coalesce(bs) == r + Run(acc, bs, k) &&
    acc.start == bs[from].start && End(acc) == End(bs[k - 1]) && acc.used == bs[k - 1].used &&
    Breaks(bs, k - 1) == |r| && (from <= cursor < k ==> Breaks(bs, cursor) == |r|) &&
    (cursor < from ==> home == Breaks(bs, cursor) && Covers(r, home, bs[cursor]))
  }

  /** The walk starts with block 0 as its run and nothing emitted. */
  lemma WalkStart(bs: seq<Block>, cursor: nat)
    requires cursor < |bs|
    ensures Walk(bs, cursor, [], bs[0], 1, 0, 0)
  {
    RunFromStart(bs);
  }

  /** Two FREE blocks in a row: block `k`, which starts where the run ends, joins the run. */
  lemma WalkExtend(bs: seq<Block>, cursor: nat, r: seq<Block>, acc: Block, k: nat, from: nat, home: nat)
    requires cursor < |bs| && Walk(bs, cursor, r, acc, k, from, home)
    requires k < |bs| && bs[k].start == End(bs[k - 1]) && !acc.used && !bs[k].used
    ensures Walk(bs, cursor, r, Merge(acc, bs[k]), k + 1, from, home)
  {
    RunExtend(acc, bs, k);
  }

  /**
   * A USED block on either side: the run is emitted and block `k` starts the
   * next one.  The run spans each of its blocks, block `cursor` included.
   */
  lemma WalkEmit(bs: seq<Block>, cursor: nat, r: seq<Block>, acc: Block, k: nat, from: nat, home: nat)
    requires cursor < |bs| && Walk(bs, cursor, r, acc, k, from, home)
    requires k < |bs| && (acc.used || bs[k].used)
    requires from <= cursor < k ==> bs[from].start <= bs[cursor].start && End(bs[cursor]) <= End(bs[k - 1])
    ensures Walk(bs, cursor, r + [acc], bs[k], k + 1, k, if from <= cursor < k then |r| else home)
  {
    RunEmit(acc, bs, k);
    assert r + ([acc] + Run(bs[k], bs, k + 1)) == (r + [acc]) + Run(bs[k], bs, k + 1);
  }

  /** At the end of the list the last run is emitted and the walk has built the coalesced list. */
  lemma WalkDone(bs: seq<Block>, cursor: nat, r: seq<Block>, acc: Block, from: nat, home: nat)
    requires cursor < |bs| && Walk(bs, cursor, r, acc, |bs|, from, home)
    requires from <= cursor ==> bs[from].start <= bs[cursor].start && End(bs[cursor]) <= End(bs[|bs| - 1])
    ensures var h := if from <= cursor then |r| else home;
      r + [acc] == Coalesce(bs) && |r + [acc]| == Breaks(bs, |bs| - 1) + 1 &&
      h == Breaks(bs, cursor) && Covers(r + [acc], h, bs[cursor])
  {
  }

  /**
   * The coalescing pass as one walk down the list: `acc` gathers the current
   * run of FREE blocks and is emitted when a USED block ends it.  Also finds
   * `home`, the merged block that spans block `cursor`.
   */
  method MergeRuns(bs: seq<Block>, cursor: nat) returns (r: seq<Block>, home: nat)
    requires Contiguous(bs) && cursor < |bs|
    ensures r == Coalesce(bs)
    ensures |r| == Breaks(bs, |bs| - 1) + 1
    ensures home == Breaks(bs, cursor) && Covers(r, home, bs[cursor])
  {
    r := [];
    var acc := bs[0];
    var k: nat, from: nat := 1, 0;
    home := 0;
    WalkStart(bs, cursor);
    while k < |bs|
      invariant Walk(bs, cursor, r, acc, k, from, home)
      decreases |bs| - k
    {
      var b := bs[k];
      if !acc.used && !b.used {
        WalkExtend(bs, cursor, r, acc, k, from, home);
        acc := Merge(acc, b);
      } else {
        if from <= cursor < k {
          ContiguousSpan(bs, from, cursor, k - 1);
        }
        WalkEmit(bs, cursor, r, acc, k, from, home);
        if from <= cursor < k {
          home := |r|;
        }
        r := r + [acc];
        acc := b;
        from := k;
      }
      k := k + 1;
    }
    if from <= cursor {
      ContiguousSpan(bs, from, cursor, k - 1);
    }
    WalkDone(bs, cursor, r, acc, from, home);
    if from <= cursor {
      home := |r|;
    }
    r := r + [acc];
  }
}
