/**
 * The four placement policies of the arena allocator.
 *
 * Each policy is given as a predicate saying which block it must choose for
 * a request of `req` (already rounded to a multiple of 4) bytes, and as a
 * read-only search method that walks the list the way the allocator does and
 * is proved to return exactly that block, or None when no FREE block is big
 * enough.
 */
module Placement {
  import opened Wrappers
  import opened Blocks

  /** The selectable allocation algorithms. */
  datatype Algorithm = FirstFit | NextFit | BestFit | WorstFit

  /** No FREE block can hold `req` bytes. */
  predicate NoFit(bs: seq<Block>, req: nat)
  {
    forall j :: 0 <= j < |bs| ==> !Fits(bs[j], req)
  }

  /** First-fit: the earliest block in list order that fits. */
  predicate FirstFitChoice(bs: seq<Block>, req: nat, i: nat)
  {
    i < |bs| && Fits(bs[i], req) &&
    forall j :: 0 <= j < i ==> !Fits(bs[j], req)
  }

  /** How far block `j` lies after the cursor `c` in the wrapping scan order c, c+1, ..., n-1, 0, ..., c-1. */
  function Distance(c: nat, j: nat, n: nat): nat
    requires c < n && j < n
  {
    if j >= c then j - c else j + n - c
  }

  /** Next-fit: the first block that fits when the scan starts at the cursor and wraps from the tail to the head. */
  predicate NextFitChoice(bs: seq<Block>, cursor: nat, req: nat, i: nat)
  {
    cursor < |bs| && i < |bs| && Fits(bs[i], req) &&
    forall j :: 0 <= j < |bs| && Distance(cursor, j, |bs|) < Distance(cursor, i, |bs|) ==> !Fits(bs[j], req)
  }

  /** Best-fit: a fitting block with the smallest leftover; on a tie the earliest. */
  predicate BestFitChoice(bs: seq<Block>, req: nat, i: nat)
  {
    i < |bs| && Fits(bs[i], req) &&
    (forall j :: 0 <= j < |bs| && Fits(bs[j], req) ==> Leftover(bs[i], req) <= Leftover(bs[j], req)) &&
    (forall j :: 0 <= j < i && Fits(bs[j], req) ==> Leftover(bs[i], req) < Leftover(bs[j], req))
  }

  /** Worst-fit: a fitting block with the largest leftover; on a tie the earliest. */
  predicate WorstFitChoice(bs: seq<Block>, req: nat, i: nat)
  {
    i < |bs| && Fits(bs[i], req) &&
    (forall j :: 0 <= j < |bs| && Fits(bs[j], req) ==> Leftover(bs[j], req) <= Leftover(bs[i], req)) &&
    (forall j :: 0 <= j < i && Fits(bs[j], req) ==> Leftover(bs[j], req) < Leftover(bs[i], req))
  }

  /** The block the active policy must choose. */
  predicate Chosen(alg: Algorithm, bs: seq<Block>, cursor: nat, req: nat, i: nat)
  {
    match alg
    case FirstFit => FirstFitChoice(bs, req, i)
    case NextFit => NextFitChoice(bs, cursor, req, i)
    case BestFit => BestFitChoice(bs, req, i)
    case WorstFit => WorstFitChoice(bs, req, i)
  }

  /** Every policy chooses at most one block: the allocator's choice is determined. */
  lemma ChoiceUnique(alg: Algorithm, bs: seq<Block>, cursor: nat, req: nat, i: nat, j: nat)
    requires Chosen(alg, bs, cursor, req, i) && Chosen(alg, bs, cursor, req, j)
    ensures i == j
  {
  }

  /** A chosen block is never USED and always big enough: no policy assigns a live block twice. */
  lemma ChosenFits(alg: Algorithm, bs: seq<Block>, cursor: nat, req: nat, i: nat)
    requires Chosen(alg, bs, cursor, req, i)
    ensures i < |bs| && !bs[i].used && bs[i].size >= req
  {
  }

  /** When exactly one block fits, every policy chooses it and nothing else. */
  lemma OnlyFit(alg: Algorithm, bs: seq<Block>, cursor: nat, req: nat, i: nat)
    requires cursor < |bs| && i < |bs| && Fits(bs[i], req)
    requires forall j :: 0 <= j < |bs| && j != i ==> !Fits(bs[j], req)
    ensures forall k :: Chosen(alg, bs, cursor, req, k) <==> k == i
  {
  }

  /** Next-fit with the cursor at the head scans exactly as first-fit does. */
  lemma NextFitFromHead(bs: seq<Block>, req: nat, i: nat)
    requires bs != []
    ensures NextFitChoice(bs, 0, req, i) <==> FirstFitChoice(bs, req, i)
  {
    if FirstFitChoice(bs, req, i) {
      forall j | 0 <= j < |bs| && Distance(0, j, |bs|) < Distance(0, i, |bs|) ensures !Fits(bs[j], req) {
        assert j < i;
      }
    }
  }

  /** The head-to-tail scan of first-fit (mavalloc_alloc, FIRST_FIT). */
  method FindFirstFit(bs: seq<Block>, req: nat) returns (r: Option<nat>)
    ensures r.None? <==> NoFit(bs, req)
    ensures r.Some? ==> FirstFitChoice(bs, req, r.value)
  {
    var node := 0;
    while node < |bs|
      invariant node <= |bs|
      invariant forall j :: 0 <= j < node ==> !Fits(bs[j], req)
    {
      if Fits(bs[node], req) {
        return Some(node);
      }
      node := node + 1;
    }
    return None;
  }

  /**
   * The wrapping scan of next-fit (mavalloc_alloc, NEXT_FIT): start at the
   * cursor, step to the next block, go back to the head after the tail, stop
   * on coming back to the start.  Each block is visited at most once.
   */
  method FindNextFit(bs: seq<Block>, cursor: nat, req: nat) returns (r: Option<nat>)
    requires bs != [] ==> cursor < |bs|
    ensures r.None? <==> NoFit(bs, req)
    ensures r.Some? ==> NextFitChoice(bs, cursor, req, r.value)
  {
    if bs == [] {
      return None;
    }
    var n := |bs|;
    var node := cursor;
    ghost var steps := 0;
    while true
      invariant steps < n && node < n
      invariant node == if cursor + steps < n then cursor + steps else cursor + steps - n
      invariant forall j :: 0 <= j < n && Distance(cursor, j, n) < steps ==> !Fits(bs[j], req)
      decreases n - steps
    {
      assert Distance(cursor, node, n) == steps;
      if Fits(bs[node], req) {
        return Some(node);
      }
      node := node + 1;
      if node == n {
        node := 0;
      }
      steps := steps + 1;
      if node == cursor {
        break;
      }
    }
    forall j | 0 <= j < n ensures !Fits(bs[j], req) {
      assert Distance(cursor, j, n) < n;
    }
    return None;
  }

  /** The full scan of best-fit (mavalloc_alloc, BEST_FIT): keep the fitting block with the smallest leftover. */
  method FindBestFit(bs: seq<Block>, req: nat) returns (r: Option<nat>)
    ensures r.None? <==> NoFit(bs, req)
    ensures r.Some? ==> BestFitChoice(bs, req, r.value)
  {
    r := None;
    var node := 0;
    while node < |bs|
      invariant node <= |bs|
      invariant r.None? ==> forall j :: 0 <= j < node ==> !Fits(bs[j], req)
      invariant r.Some? ==> r.value < node && Fits(bs[r.value], req)
      invariant r.Some? ==> forall j :: 0 <= j < node && Fits(bs[j], req) ==> Leftover(bs[r.value], req) <= Leftover(bs[j], req)
      invariant r.Some? ==> forall j :: 0 <= j < r.value && Fits(bs[j], req) ==> Leftover(bs[r.value], req) < Leftover(bs[j], req)
    {
      if Fits(bs[node], req) && (r.None? || Leftover(bs[node], req) < Leftover(bs[r.value], req)) {
        r := Some(node);
      }
      node := node + 1;
    }
  }

  /** The full scan of worst-fit (mavalloc_alloc, WORST_FIT): keep the fitting block with the largest leftover. */
  method FindWorstFit(bs: seq<Block>, req: nat) returns (r: Option<nat>)
    ensures r.None? <==> NoFit(bs, req)
    ensures r.Some? ==> WorstFitChoice(bs, req, r.value)
  {
    r := None;
    var node := 0;
    while node < |bs|
      invariant node <= |bs|
      invariant r.None? ==> forall j :: 0 <= j < node ==> !Fits(bs[j], req)
      invariant r.Some? ==> r.value < node && Fits(bs[r.value], req)
      invariant r.Some? ==> forall j :: 0 <= j < node && Fits(bs[j], req) ==> Leftover(bs[j], req) <= Leftover(bs[r.value], req)
      invariant r.Some? ==> forall j :: 0 <= j < r.value && Fits(bs[j], req) ==> Leftover(bs[j], req) < Leftover(bs[r.value], req)
    {
      if Fits(bs[node], req) && (r.None? || Leftover(bs[r.value], req) < Leftover(bs[node], req)) {
        r := Some(node);
      }
      node := node + 1;
    }
  }

  /** Dispatch on the active algorithm. */
  method Select(alg: Algorithm, bs: seq<Block>, cursor: nat, req: nat) returns (r: Option<nat>)
    requires bs != [] ==> cursor < |bs|
    ensures r.None? <==> NoFit(bs, req)
    ensures r.Some? ==> Chosen(alg, bs, cursor, req, r.value)
  {
    match alg
    case FirstFit => r := FindFirstFit(bs, req);
    case NextFit => r := FindNextFit(bs, cursor, req);
    case BestFit => r := FindBestFit(bs, req);
    case WorstFit => r := FindWorstFit(bs, req);
  }
}
