/**
 * Client runs of the allocator, proved from the operations' contracts
 * alone: each fixes a sequence of calls and states the addresses they
 * return under one policy.
 */
module Scenarios {
  import opened Wrappers
  import opened Blocks
  import opened Placement
  import opened Arena
  import opened Coalescing

  /** A fresh allocator over 100 bytes run by `alg`. */
  method Fresh(alg: Algorithm) returns (m: Allocator)
    ensures fresh(m) && m.Valid() && m.algorithm == alg
    ensures m.blocks == [Block(0, 100, false)] && m.cursor == 0 && m.capacity == 100
  {
    m := new Allocator();
    m.Init(100, alg);
    assert Align4(100) == 100;
  }

  /** A request that is already a multiple of 4 is not rounded. */
  lemma Align4Exact(n: nat)
    requires n % 4 == 0
    ensures Align4(n) == n
  {
    assert (n + 3) / 4 == n / 4;
  }

  /** Carving `req` bytes from the last block, which is bigger. */
  lemma SplitLast(pre: seq<Block>, b: Block, req: nat)
    requires b.size > req
    ensures Split(pre + [b], |pre|, req) == pre + [Block(b.start, req, true), Block(b.start + req, b.size - req, false)]
  {
    var bs := pre + [b];
    assert bs[..|pre|] == pre && bs[|pre|] == b && bs[|pre| + 1..] == [];
  }

  /** One allocation of 20 bytes from a fresh 100-byte arena run by `alg`. */
  method TakeTwenty(alg: Algorithm) returns (m: Allocator, a: Option<nat>)
    ensures fresh(m) && m.Valid() && m.algorithm == alg && a == Some(0)
    ensures m.blocks == [Block(0, 20, true), Block(20, 80, false)] && m.cursor == 0
  {
    m := Fresh(alg);
    OnlyFit(alg, m.blocks, m.cursor, 20, 0);
    Align4Exact(20);
    SplitLast([], Block(0, 100, false), 20);
    a := m.Alloc(20);
  }

  /** Then 20 bytes more, which only the second block can hold. */
  method TakeTwentyTwice(alg: Algorithm) returns (m: Allocator, a: Option<nat>, b: Option<nat>)
    ensures fresh(m) && m.Valid() && m.algorithm == alg && a == Some(0) && b == Some(20)
    ensures m.blocks == [Block(0, 20, true), Block(20, 20, true), Block(40, 60, false)] && m.cursor == 1
  {
    m, a := TakeTwenty(alg);
    OnlyFit(alg, m.blocks, m.cursor, 20, 1);
    Align4Exact(20);
    SplitLast([Block(0, 20, true)], Block(20, 80, false), 20);
    b := m.Alloc(20);
  }

  /** First-fit: 20 bytes at 0, then 30 bytes, rounded to 32, at 20. */
  method FirstFitTwo() returns (m: Allocator, a: Option<nat>, b: Option<nat>)
    ensures fresh(m) && m.Valid() && m.algorithm == FirstFit && a == Some(0) && b == Some(20)
    ensures m.blocks == [Block(0, 20, true), Block(20, 32, true), Block(52, 48, false)]
  {
    m, a := TakeTwenty(FirstFit);
    OnlyFit(FirstFit, m.blocks, m.cursor, 32, 1);
    assert Align4(30) == 32;
    SplitLast([Block(0, 20, true)], Block(20, 80, false), 32);
    b := m.Alloc(30);
  }

  /** First-fit on 100 bytes: 20 at 0, 30 (rounded to 32) at 20, free 0, then 10 reuses offset 0. */
  method FirstFitScenario() returns (a: Option<nat>, b: Option<nat>, c: Option<nat>)
    ensures a == Some(0) && b == Some(20) && c == Some(0)
  {
    var m;
    m, a, b := FirstFitTwo();
    m.Free(0);
    assert StartIndex(m.blocks, 0) == Some(0);
    assert m.blocks == [Block(0, 20, false), Block(20, 32, true), Block(52, 48, false)];
    assert Align4(10) == 12;
    assert FirstFitChoice(m.blocks, 12, 0);
    ghost var before := m.blocks;
    c := m.Alloc(10);
    ChoiceUnique(FirstFit, before, 1, 12, m.cursor, 0);
  }

  /** One allocation of 48 bytes from a fresh 100-byte arena run by `alg`. */
  method CarveOne(alg: Algorithm) returns (m: Allocator)
    ensures fresh(m) && m.Valid() && m.algorithm == alg
    ensures m.blocks == [Block(0, 48, true), Block(48, 52, false)]
  {
    m := Fresh(alg);
    OnlyFit(alg, m.blocks, m.cursor, 48, 0);
    Align4Exact(48);
    SplitLast([], Block(0, 100, false), 48);
    var a := m.Alloc(48);
  }

  /** Then 4 bytes. */
  method CarveTwo(alg: Algorithm) returns (m: Allocator)
    ensures fresh(m) && m.Valid() && m.algorithm == alg
    ensures m.blocks == [Block(0, 48, true), Block(48, 4, true), Block(52, 48, false)]
  {
    m := CarveOne(alg);
    OnlyFit(alg, m.blocks, m.cursor, 4, 1);
    Align4Exact(4);
    SplitLast([Block(0, 48, true)], Block(48, 52, false), 4);
    var a := m.Alloc(4);
  }

  /** Then 12 bytes. */
  method CarveThree(alg: Algorithm) returns (m: Allocator)
    ensures fresh(m) && m.Valid() && m.algorithm == alg
    ensures m.blocks == [Block(0, 48, true), Block(48, 4, true), Block(52, 12, true), Block(64, 36, false)]
  {
    m := CarveTwo(alg);
    OnlyFit(alg, m.blocks, m.cursor, 12, 2);
    Align4Exact(12);
    SplitLast([Block(0, 48, true), Block(48, 4, true)], Block(52, 48, false), 12);
    var a := m.Alloc(12);
  }

  /** Then 4 more bytes. */
  method Carve(alg: Algorithm) returns (m: Allocator)
    ensures fresh(m) && m.Valid() && m.algorithm == alg
    ensures m.blocks == [Block(0, 48, true), Block(48, 4, true), Block(52, 12, true),
                         Block(64, 4, true), Block(68, 32, false)]
  {
    m := CarveThree(alg);
    OnlyFit(alg, m.blocks, m.cursor, 4, 3);
    Align4Exact(4);
    SplitLast([Block(0, 48, true), Block(48, 4, true), Block(52, 12, true)], Block(64, 36, false), 4);
    var a := m.Alloc(4);
  }

  /**
   * Builds FREE 48 at 0, USED 4 at 48, FREE 12 at 52, USED 4 at 64 and
   * FREE 32 at 68 in a 100-byte arena run by `alg`.
   */
  method ThreeHoles(alg: Algorithm) returns (m: Allocator)
    ensures fresh(m) && m.Valid() && m.algorithm == alg
    ensures m.blocks == [Block(0, 48, false), Block(48, 4, true), Block(52, 12, false),
                         Block(64, 4, true), Block(68, 32, false)]
  {
    m := Carve(alg);
    m.Free(0);
    assert m.blocks == [Block(0, 48, false), Block(48, 4, true), Block(52, 12, true),
                        Block(64, 4, true), Block(68, 32, false)];
    m.Free(52);
  }

  /** Best-fit takes the 12-byte hole for 8 bytes (leftover 4), not the 48- or 32-byte one. */
  method BestFitScenario() returns (r: Option<nat>)
    ensures r == Some(52)
  {
    var m := ThreeHoles(BestFit);
    assert BestFitChoice(m.blocks, 8, 2);
    ghost var before := m.blocks;
    r := m.Alloc(8);
    ChoiceUnique(BestFit, before, 0, 8, m.cursor, 2);
  }

  /** Worst-fit takes the 48-byte hole for 8 bytes (leftover 40). */
  method WorstFitScenario() returns (r: Option<nat>)
    ensures r == Some(0)
  {
    var m := ThreeHoles(WorstFit);
    assert WorstFitChoice(m.blocks, 8, 0);
    ghost var before := m.blocks;
    r := m.Alloc(8);
    ChoiceUnique(WorstFit, before, 0, 8, m.cursor, 0);
  }

  /**
   * Next-fit resumes at the cursor: after the second allocation matched the
   * second block, a request that the freed first block could satisfy is
   * served from the third block instead.
   */
  method NextFitScenario() returns (a: Option<nat>, b: Option<nat>, c: Option<nat>)
    ensures a == Some(0) && b == Some(20) && c == Some(40)
  {
    var m;
    m, a, b := TakeTwentyTwice(NextFit);
    m.Free(0);
    assert StartIndex(m.blocks, 0) == Some(0);
    assert m.blocks == [Block(0, 20, false), Block(20, 20, true), Block(40, 60, false)];
    Align4Exact(8);
    assert NextFitChoice(m.blocks, 1, 8, 2);
    ghost var before := m.blocks;
    c := m.Alloc(8);
    ChoiceUnique(NextFit, before, 1, 8, m.cursor, 2);
  }

  /** A request larger than every FREE block fails under any policy and leaves the list as it was. */
  method ExhaustionScenario(alg: Algorithm) returns (r: Option<nat>, n: nat)
    ensures r == None && n == 2
  {
    var m, a := TakeTwenty(alg);
    r := m.Alloc(81);
    n := m.Size();
  }

  /**
   * With the coalescing free, releasing two neighbouring allocations gives
   * back one FREE block spanning the whole arena.
   */
  method CoalescingScenario() returns (n: nat)
    ensures n == 1
  {
    var m, a, b := TakeTwentyTwice(FirstFit);
    ghost var freed := [Block(0, 20, false), Block(20, 20, true), Block(40, 60, false)];
    assert MarkFree(m.blocks, 0) == freed by {
      assert StartIndex(m.blocks, 0) == Some(0);
    }
    CoalesceNothingToDo(freed);
    m.FreeAndCoalesce(0);
    assert MarkFree(m.blocks, 20) == [Block(0, 20, false), Block(20, 20, false), Block(40, 60, false)] by {
      assert StartIndex(m.blocks, 20) == Some(1);
    }
    CoalesceMergeHead(Block(0, 20, false), Block(20, 20, false), [Block(40, 60, false)]);
    CoalesceMergeHead(Block(0, 40, false), Block(40, 60, false), []);
    m.FreeAndCoalesce(20);
    assert m.blocks == [Block(0, 100, false)];
    n := m.Size();
  }
}
