/**
 * The allocator's global state and its public operations: init, alloc,
 * free, size and destroy.  The C code keeps the list head, the next-fit
 * cursor and the active algorithm in globals that every call updates; here
 * they are the fields of one Allocator object.
 */
module Arena {
  import opened Wrappers
  import opened Blocks
  import opened Placement
  import opened Coalescing

  class Allocator {
    /** The block list, in list (and address) order. */
    var blocks: seq<Block>
    /** The next-fit cursor: the index of the last block handed out. */
    var cursor: nat
    /** The active placement policy. */
    var algorithm: Algorithm
    /** The arena's size in bytes, already rounded to a multiple of 4. */
    var capacity: nat

    /** The list partitions the arena, every size is a multiple of 4 and the cursor names a block. */
    ghost predicate Valid()
      reads this
    {
      Partition(blocks, capacity) && Aligned(blocks) && capacity % 4 == 0 &&
      (blocks != [] ==> cursor < |blocks|)
    }

    /** The state before the first init: no list, first-fit selected. */
    constructor ()
      ensures Valid()
      ensures blocks == [] && capacity == 0 && algorithm == FirstFit
    {
      blocks := [];
      cursor := 0;
      algorithm := FirstFit;
      capacity := 0;
    }

    /**
     * mavalloc_init: an arena of ALIGN4(size) bytes held by a single FREE
     * block at the base; the cursor is that block and `alg` becomes the
     * active policy.
     */
    method Init(size: nat, alg: Algorithm)
      modifies this
      ensures Valid()
      ensures capacity == Align4(size) && algorithm == alg
      ensures blocks == [Block(0, Align4(size), false)] && cursor == 0
    {
      capacity := Align4(size);
      algorithm := alg;
      blocks := [Block(0, capacity, false)];
      cursor := 0;
    }

    /** mavalloc_destroy: the arena and every block are released; the allocator is empty again. */
    method Destroy()
      requires Valid()
      modifies this
      ensures Valid()
      ensures blocks == [] && capacity == 0 && cursor == 0 && algorithm == old(algorithm)
    {
      blocks := [];
      capacity := 0;
      cursor := 0;
    }

    /**
     * mavalloc_alloc: round the request up to a multiple of 4, let the
     * active policy choose a FREE block, mark it USED, split off the
     * leftover and move the cursor to it.  Returns the block's start, or
     * None (NULL) with nothing changed when no FREE block is big enough.
     */
    method Alloc(size: nat) returns (r: Option<nat>)
      requires Valid()
      modifies this
      ensures Valid()
      ensures capacity == old(capacity) && algorithm == old(algorithm)
      ensures r.None? <==> NoFit(old(blocks), Align4(size))
      ensures r.None? ==> blocks == old(blocks) && cursor == old(cursor)
      ensures r.Some? ==>
        Chosen(algorithm, old(blocks), old(cursor), Align4(size), cursor) &&
        r == Some(old(blocks)[cursor].start) &&
        blocks == Split(old(blocks), cursor, Align4(size))
    {
      var aligned := Align4(size);
      var sel := Select(algorithm, blocks, cursor, aligned);
      if sel.None? {
        return None;
      }
      var node := sel.value;
      var b := blocks[node];
      var leftover := b.size - aligned;
      SplitValid(blocks, capacity, node, aligned);
      // the matched node becomes USED with the aligned size, and a FREE node
      // holding the leftover is linked in right after it
      var piece := [Block(b.start, aligned, true)];
      if leftover > 0 {
        piece := piece + [Block(b.start + aligned, leftover, false)];
      }
      assert piece == Piece(b, aligned);
      blocks := blocks[..node] + piece + blocks[node + 1..];
      cursor := node;
      r := Some(b.start);
    }

    /**
     * mavalloc_free: walk the list to the first block starting at `ptr` and
     * mark it FREE.  Nothing else changes, and nothing at all when no block
     * starts there.
     */
    method Free(ptr: nat)
      requires Valid()
      modifies this
      ensures Valid()
      ensures capacity == old(capacity) && algorithm == old(algorithm) && cursor == old(cursor)
      ensures blocks == MarkFree(old(blocks), ptr)
    {
      MarkFreeValid(blocks, capacity, ptr);
      var node := 0;
      while node < |blocks|
        invariant node <= |blocks| && blocks == old(blocks)
        invariant forall j :: 0 <= j < node ==> blocks[j].start != ptr
      {
        if blocks[node].start == ptr {
          blocks := blocks[node := blocks[node].(used := false)];
          return;
        }
        node := node + 1;
      }
    }

    /**
     * Not what mavalloc_free does: free as its comment describes it.  The
     * block is marked FREE as Free marks it (MarkFree), then one pass over
     * the list merges every run of neighbouring FREE blocks into one.  The
     * cursor moves to the merged block its block was folded into.
     */
    method FreeAndCoalesce(ptr: nat)
      requires Valid()
      modifies this
      ensures Valid()
      ensures capacity == old(capacity) && algorithm == old(algorithm)
      ensures blocks == Coalesce(MarkFree(old(blocks), ptr))
      ensures NoAdjacentFree(blocks)
      ensures old(blocks) != [] ==>
        cursor == Breaks(MarkFree(old(blocks), ptr), old(cursor)) && Covers(blocks, cursor, old(blocks)[old(cursor)])
    {
      if blocks == [] {
        return;
      }
      var freed := MarkFree(blocks, ptr);
      FreedMerge(blocks, capacity, ptr, cursor);
      var merged, home := MergeRuns(freed, cursor);
      assert Covers(merged, home, blocks[cursor]);
      blocks, cursor := merged, home;
    }

    /** mavalloc_size: the number of blocks, FREE and USED. */
    method Size() returns (n: nat)
      ensures n == |blocks|
    {
      n := 0;
      while n < |blocks|
        invariant n <= |blocks|
      {
        n := n + 1;
      }
    }
  }
}
