/**
 * The allocator's code as written where it departs from what its comments
 * intend (the ones at mavalloc.c:241-249 and 262-270 for best-fit and
 * worst-fit), each with an input that exhibits the departure.  The
 * rest of the model uses the corrected behaviour (Blocks.Split and the
 * searches of Placement).
 */
module Findings {
  import opened Wrappers
  import opened Blocks
  import opened Placement

  /** size_t arithmetic wraps modulo 2^64. */
  const SizeModulus: nat := 0x1_0000_0000_0000_0000
  /** INT_MAX and INT_MIN of a 32-bit int. */
  const IntMax: int := 0x7fff_ffff
  const IntMin: int := -0x8000_0000

  /** `a - b` on size_t. */
  function SizeSub(a: nat, b: nat): nat
  {
    (a - b) % SizeModulus
  }

  /** An int converted to size_t, as C converts it when it is compared with a size_t. */
  function AsSize(x: int): nat
  {
    x % SizeModulus
  }

  // ------------------------------------------- leftover address (line 163)

  /** The split as written: the leftover node's start is the matched start plus the UNROUNDED request. */
  function SplitAsWritten(bs: seq<Block>, i: nat, size: nat): seq<Block>
    requires i < |bs| && bs[i].size >= Align4(size)
  {
    var b := bs[i];
    var aligned := Align4(size);
    var taken := Block(b.start, aligned, true);
    if b.size - aligned > 0 then bs[..i] + [taken, Block(b.start + size, b.size - aligned, false)] + bs[i + 1..]
    else bs[..i] + [taken] + bs[i + 1..]
  }

  /** A 5-byte request from a 100-byte arena: the USED [0, 8) and the FREE leftover at 5 overlap, and the list no longer ends at 100. */
  lemma SplitAsWrittenOverlaps()
    ensures var r := SplitAsWritten([Block(0, 100, false)], 0, 5);
      r == [Block(0, 8, true), Block(5, 92, false)] &&
      End(r[0]) > r[1].start && !Partition(r, 100)
  {
    var r := SplitAsWritten([Block(0, 100, false)], 0, 5);
    assert r[1].start != End(r[0]);
  }

  /**
   * As written, the split agrees with the corrected one exactly when the
   * request is already a multiple of 4 or the block leaves no leftover.
   */
  lemma SplitAsWrittenAgrees(bs: seq<Block>, i: nat, size: nat)
    requires i < |bs| && bs[i].size >= Align4(size)
    ensures SplitAsWritten(bs, i, size) == Split(bs, i, Align4(size)) <==>
            size % 4 == 0 || bs[i].size == Align4(size)
  {
    var b, aligned := bs[i], Align4(size);
    if size % 4 == 0 {
      assert (size + 3) / 4 == size / 4;
    } else if b.size > aligned {
      assert SplitAsWritten(bs, i, size)[i + 1].start == b.start + size;
      assert Split(bs, i, aligned)[i + 1].start == b.start + aligned;
    }
  }

  // ---------------------------------------- best-fit and worst-fit (244-279)

  /** The first FREE node from `k` on whose size_t difference `size - req` is below `bound`. */
  function FirstFreeBelow(bs: seq<Block>, req: nat, bound: nat, k: nat): (r: Option<nat>)
    requires k <= |bs|
    ensures r.None? <==> forall j :: k <= j < |bs| ==> bs[j].used || SizeSub(bs[j].size, req) >= bound
    ensures r.Some? ==> k <= r.value < |bs| && !bs[r.value].used && SizeSub(bs[r.value].size, req) < bound &&
                        forall j :: k <= j < r.value ==> bs[j].used || SizeSub(bs[j].size, req) >= bound
    decreases |bs| - k
  {
    if k == |bs| then None
    else if !bs[k].used && SizeSub(bs[k].size, req) < bound then Some(k)
    else FirstFreeBelow(bs, req, bound, k + 1)
  }

  /** Best-fit as written: the first FREE node whose difference is below INT_MAX, handed back at once. */
  function BestFitAsWritten(bs: seq<Block>, req: nat): Option<nat>
  {
    FirstFreeBelow(bs, req, AsSize(IntMax), 0)
  }

  /** Worst-fit as written: the same scan against INT_MIN, also with `<`, also handed back at once. */
  function WorstFitAsWritten(bs: seq<Block>, req: nat): Option<nat>
  {
    FirstFreeBelow(bs, req, AsSize(IntMin), 0)
  }

  /**
   * For blocks and requests below INT_MAX both scans as written come down to
   * first-fit: the early return means no smaller or larger leftover is ever
   * looked for.
   */
  lemma AsWrittenIsFirstFit(bs: seq<Block>, req: nat, i: nat)
    requires req < IntMax
    requires forall j :: 0 <= j < |bs| ==> bs[j].size < IntMax
    ensures BestFitAsWritten(bs, req) == Some(i) <==> FirstFitChoice(bs, req, i)
    ensures WorstFitAsWritten(bs, req) == Some(i) <==> FirstFitChoice(bs, req, i)
  {
    forall j | 0 <= j < |bs|
      ensures (!bs[j].used && SizeSub(bs[j].size, req) < AsSize(IntMax)) <==> Fits(bs[j], req)
      ensures (!bs[j].used && SizeSub(bs[j].size, req) < AsSize(IntMin)) <==> Fits(bs[j], req)
    {
      if bs[j].size < req {
        assert SizeSub(bs[j].size, req) == SizeModulus - (req - bs[j].size);
      }
    }
  }

  /** FREE 48 at 0, USED 4 at 48, FREE 12 at 52, USED 4 at 64, FREE 32 at 68. */
  function HolesBestLast(): seq<Block>
  {
    [Block(0, 48, false), Block(48, 4, true), Block(52, 12, false), Block(64, 4, true), Block(68, 32, false)]
  }

  /** FREE 12 at 0, USED 4 at 12, FREE 48 at 16, USED 4 at 64, FREE 32 at 68. */
  function HolesWorstLater(): seq<Block>
  {
    [Block(0, 12, false), Block(12, 4, true), Block(16, 48, false), Block(64, 4, true), Block(68, 32, false)]
  }

  /** Best-fit as written takes the 48-byte hole for 8 bytes; the smallest leftover is in the 12-byte one. */
  lemma BestFitAsWrittenNotBest()
    ensures Partition(HolesBestLast(), 100)
    ensures BestFitAsWritten(HolesBestLast(), 8) == Some(0)
    ensures BestFitChoice(HolesBestLast(), 8, 2) && !BestFitChoice(HolesBestLast(), 8, 0)
  {
    var bs := HolesBestLast();
    assert !bs[0].used && SizeSub(bs[0].size, 8) < AsSize(IntMax);
    assert Fits(bs[2], 8);
  }

  /** Worst-fit as written takes the 12-byte hole for 8 bytes; the largest leftover is in the 48-byte one. */
  lemma WorstFitAsWrittenNotWorst()
    ensures Partition(HolesWorstLater(), 100)
    ensures WorstFitAsWritten(HolesWorstLater(), 8) == Some(0)
    ensures WorstFitChoice(HolesWorstLater(), 8, 2) && !WorstFitChoice(HolesWorstLater(), 8, 0)
  {
    var bs := HolesWorstLater();
    assert !bs[0].used && SizeSub(bs[0].size, 8) < AsSize(IntMin);
    assert Fits(bs[2], 8);
  }

  /** Best-fit's allocation as written: the node found and the list afterwards, which is the list before. */
  function BestFitAllocAsWritten(bs: seq<Block>, size: nat): (Option<nat>, seq<Block>)
  {
    (BestFitAsWritten(bs, Align4(size)), bs)
  }

  /**
   * Best-fit as written changes no node, so the block it hands out stays
   * FREE and the very next request of the same size is handed the same block.
   */
  lemma AsWrittenHandsOutTwice()
    ensures var (first, after) := BestFitAllocAsWritten(HolesBestLast(), 8);
      var (second, _) := BestFitAllocAsWritten(after, 8);
      first == second == Some(0)
  {
    BestFitAsWrittenNotBest();
  }

  /** Once split, the matched block is USED: no policy hands it out again. */
  lemma SplitRetires(alg: Algorithm, bs: seq<Block>, cursor: nat, i: nat, req: nat, next: nat)
    requires i < |bs| && bs[i].size >= req
    ensures !Chosen(alg, Split(bs, i, req), cursor, next, i)
  {
    SplitShape(bs, i, req);
  }

  // --------------------------------------------------- next-fit (177-235)

  /** The result of running the next-fit loop as written for a bounded number of iterations. */
  datatype NextFitOutcome = Found(index: nat) | Stopped | Running

  /**
   * `fuel` iterations of the next-fit loop as written from `node`: test the
   * node, step to the next one, break if that is `previous`, and only then go
   * back to the head on reaching the end (NULL).
   */
  function NextFitAsWritten(bs: seq<Block>, req: nat, previous: nat, node: nat, fuel: nat): NextFitOutcome
    requires node < |bs|
    decreases fuel
  {
    if fuel == 0 then Running
    else if Fits(bs[node], req) then Found(node)
    else if node + 1 == previous then Stopped
    else if node + 1 == |bs| then NextFitAsWritten(bs, req, previous, 0, fuel - 1)
    else NextFitAsWritten(bs, req, previous, node + 1, fuel - 1)
  }

  /**
   * With the stop marker at the head (the `previous == NULL` branch makes it
   * the head) and no block big enough, the loop as written never stops: the
   * head is reached only by the wrap, which comes after the break test.
   */
  lemma {:induction false} NextFitAsWrittenHangs(bs: seq<Block>, req: nat, node: nat, fuel: nat)
    requires node < |bs| && NoFit(bs, req)
    ensures NextFitAsWritten(bs, req, 0, node, fuel) == Running
    decreases fuel
  {
    if fuel > 0 {
      if node + 1 == |bs| {
        NextFitAsWrittenHangs(bs, req, 0, fuel - 1);
      } else {
        NextFitAsWrittenHangs(bs, req, node + 1, fuel - 1);
      }
    }
  }

  /** After init(100, NEXT_FIT), alloc(104) never returns as written; the corrected scan answers NULL. */
  lemma NextFitAsWrittenHangsAfterInit(fuel: nat)
    ensures NextFitAsWritten([Block(0, 100, false)], Align4(104), 0, 0, fuel) == Running
    ensures NoFit([Block(0, 100, false)], Align4(104))
  {
    NextFitAsWrittenHangs([Block(0, 100, false)], 104, 0, fuel);
  }
}
