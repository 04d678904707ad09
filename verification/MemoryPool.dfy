/** The memory pool as the linked structure it is: nodes that are updated in place,
 *  reached through `head`, `current` and `largeList`.  Every method is proved to act
 *  on the pool as the function of module `PoolSpec` with its name.
 */
module MemoryPool {
  import opened Common
  import opened PoolSpec

  class SmallNode {
    const base: nat
    ghost const index: nat
    var end: nat
    var last: nat
    var quote: nat
    var failed: nat
    var next: SmallNode?

    constructor (base: nat, end: nat, last: nat, quote: nat, ghost index: nat)
      ensures this.index == index
      ensures this.base == base && this.end == end && this.last == last && this.quote == quote
      ensures failed == 0 && next == null
    {
      this.base, this.end, this.last, this.quote := base, end, last, quote;
      this.index := index;
      failed, next := 0, null;
    }

    ghost function View(): Block
      reads this
    {
      Block(base, end, last, quote, failed)
    }
  }

  class LargeNode {
    const record: nat
    ghost const rank: nat
    var address: nat
    var size: nat
    var next: LargeNode?

    constructor (record: nat, address: nat, size: nat, next: LargeNode?, ghost rank: nat)
      ensures this.rank == rank
      ensures this.record == record && this.address == address && this.size == size && this.next == next
    {
      this.record, this.address, this.size, this.next := record, address, size, next;
      this.rank := rank;
    }

    ghost function View(): Large
      reads this
    {
      Large(record, address, size)
    }
  }

  class Allocator {
    var page: nat
    var head: SmallNode
    var current: SmallNode
    var largeList: LargeNode?
    // The nodes of the two lists in order, what they hold, and the place of `current`.
    ghost var nodes: seq<SmallNode>
    ghost var blocks: seq<Block>
    ghost var place: nat
    ghost var records: seq<LargeNode>
    ghost var larges: seq<Large>
    // The same nodes as sets, for the frames.
    ghost var smallNodes: set<SmallNode>
    ghost var largeNodes: set<LargeNode>

    ghost predicate BlocksValid()
      reads `head, `current, `nodes, `blocks, `place, `smallNodes, smallNodes
    {
      && |nodes| > 0 && head == nodes[0] && place < |nodes| && current == nodes[place]
      && |blocks| == |nodes|
      && (forall i :: 0 <= i < |nodes| ==>
            nodes[i] in smallNodes && nodes[i].index == i && nodes[i].View() == blocks[i])
      && (forall i :: 0 <= i < |nodes| - 1 ==> nodes[i].next == nodes[i + 1])
      && nodes[|nodes| - 1].next == null
    }

    ghost predicate RecordsValid()
      reads `largeList, `records, `larges, `largeNodes, largeNodes
    {
      && largeList == (if |records| > 0 then records[0] else null)
      && |larges| == |records|
      && (forall i :: 0 <= i < |records| ==>
            records[i] in largeNodes && records[i].rank + i + 1 == |records| && records[i].View() == larges[i])
      && (forall i :: 0 <= i < |records| - 1 ==> records[i].next == records[i + 1])
      && (|records| > 0 ==> records[|records| - 1].next == null)
    }

    ghost predicate Valid()
      reads this, smallNodes, largeNodes
    {
      BlocksValid() && RecordsValid()
    }

    ghost function State(): Pool
      reads this
    {
      Pool(page, blocks, place, larges)
    }

    /** `createPool`, when the system gives it a page. */
    constructor CreatePool(page: nat)
      requires page > 0
      ensures Valid() && State() == Created(page)
      ensures fresh(smallNodes) && fresh(largeNodes)
    {
      var node := new SmallNode(page + SIZEOF_POOL, page + PAGE_SIZE, page + SIZEOF_POOL + SIZEOF_SMALL_NODE, 0, 0);
      this.page, head, current, largeList := page, node, node, null;
      nodes, place, records, larges := [node], 0, [], [];
      blocks, smallNodes, largeNodes := Created(page).blocks, {node}, {};
    }

    lemma BlocksAre()
      requires BlocksValid()
      ensures place < |nodes| == |blocks| && head == nodes[0] && current == nodes[place]
    {
    }

    lemma BlockIs(i: nat)
      requires BlocksValid() && i < |nodes|
      ensures nodes[i] in smallNodes && nodes[i].View() == blocks[i]
      ensures nodes[i].next == if i + 1 < |nodes| then nodes[i + 1] else null
    {
    }

    /** Block `i` takes new counters and a new `last_`; the list stays as it is. */
    method Update(node: SmallNode, last: nat, quote: nat, failed: nat, ghost i: nat)
      requires BlocksValid() && i < |nodes| && node == nodes[i]
      modifies `blocks, node
      ensures BlocksValid() && node.next == old(node.next)
      ensures blocks == old(blocks)[i := Block(node.base, old(node.end), last, quote, failed)]
    {
      node.last, node.quote, node.failed := last, quote, failed;
      blocks := blocks[i := node.View()];
    }

    method Restart()
      requires BlocksValid()
      modifies `current, `place
      ensures BlocksValid() && place == 0
    {
      current := head;
      place := 0;
    }

    method Link(tail: SmallNode, node: SmallNode, newCurrent: SmallNode, ghost c: nat)
      requires BlocksValid() && tail == nodes[|nodes| - 1]
      requires node !in smallNodes && node.index == |nodes| && node.next == null
      requires c < |nodes| && newCurrent == nodes[c]
      modifies `current, `nodes, `blocks, `place, `smallNodes, tail
      ensures BlocksValid() && smallNodes == old(smallNodes) + {node}
      ensures blocks == old(blocks) + [node.View()] && place == c
    {
      tail.next := node;
      current := newCurrent;
      nodes, blocks, place := nodes + [node], blocks + [node.View()], c;
      smallNodes := smallNodes + {node};
    }

    /** `mallocSmallNode` */
    method MallocSmallNode(size: nat, block: nat) returns (addr: nat)
      requires BlocksValid()
      modifies `current, `nodes, `blocks, `place, `smallNodes, smallNodes
      ensures BlocksValid() && (State(), addr) == NewBlock(old(State()), size, block)
      ensures fresh(smallNodes - old(smallNodes))
    {
      hide BlocksValid;
      if block == 0 {
        return 0;
      }
      BlocksAre();
      addr := AlignPtr(block + SIZEOF_SMALL_NODE);
      var smallNode := new SmallNode(block, block + PAGE_SIZE, addr + size, 1, |nodes|);
      var newCurrent, tail, c := AgeBlocks();
      BlocksAre();
      assert SkipPast(old(blocks), place, place) == c;
      Link(tail, smallNode, newCurrent, c);
    }

    /** The walk of `mallocSmallNode` to the tail, which counts a failure in each
        block it leaves and finds out where `current` goes. */
    method AgeBlocks() returns (newCurrent: SmallNode, tail: SmallNode, ghost c: nat)
      requires BlocksValid()
      modifies `blocks, smallNodes
      ensures BlocksValid() && blocks == Age(old(blocks), place)
      ensures tail == nodes[|nodes| - 1] && tail in smallNodes
      ensures c < |nodes| && newCurrent == nodes[c] && c == SkipPast(old(blocks), place, place)
    {
      hide BlocksValid;
      BlocksAre();
      newCurrent := current;
      var cur := current;
      ghost var i := place;
      c := place;
      BlockIs(i);
      while cur.next != null
        invariant BlocksValid() && |blocks| == |nodes| == |old(blocks)|
        invariant place <= i < |nodes| && cur == nodes[i]
        invariant cur.next == (if i + 1 < |nodes| then nodes[i + 1] else null) && cur.View() == blocks[i]
        invariant cur in smallNodes
        invariant 0 <= c < |nodes| && newCurrent == nodes[c]
        invariant SkipPast(old(blocks), i, c) == SkipPast(old(blocks), place, place)
        invariant forall j :: 0 <= j < |blocks| ==>
          blocks[j] == var b := old(blocks)[j]; if place <= j < i then b.(failed := (b.failed + 1) % UINT) else b
        decreases |nodes| - i
      {
        if cur.failed >= 5 {
          newCurrent := cur.next;
          c := i + 1;
        }
        Update(cur, cur.last, cur.quote, (cur.failed + 1) % UINT, i);
        cur := cur.next;
        i := i + 1;
        BlockIs(i);
      }
      tail := cur;
    }

    /** The search of `malloc` through the blocks from `current` on. */
    method MallocSmallBlock(size: nat, block: nat) returns (addr: nat)
      requires BlocksValid()
      modifies `current, `nodes, `blocks, `place, `smallNodes, smallNodes
      ensures BlocksValid() && (State(), addr) == MallocSmall(old(State()), size, block)
      ensures fresh(smallNodes - old(smallNodes))
    {
      var cur: SmallNode? := current;
      ghost var i := place;
      while cur != null
        invariant place <= i <= |nodes| && cur == if i < |nodes| then nodes[i] else null
        invariant FirstFit(blocks, place, size) == FirstFit(blocks, i, size)
        decreases |nodes| - i
      {
        addr := AlignPtr(cur.last);
        if (cur.end - addr) % SIZE_T >= size {
          Update(cur, addr + size, (cur.quote + 1) % UINT, cur.failed, i);
          return;
        }
        cur := cur.next;
        i := i + 1;
      }
      addr := MallocSmallNode(size, block);
    }

    /** The search of `mallocLargeNode` for a record to use again. */
    method ReuseRecord(size: nat, large: nat) returns (found: bool)
      requires RecordsValid() && large != 0
      modifies `larges, largeNodes
      ensures RecordsValid()
      ensures var ls, k := old(larges), FreeRecord(old(larges), 0);
        && found == (k < |ls|)
        && larges == if found then ls[k := ls[k].(address := large, size := size % UINT)] else ls
    {
      var count := 0;
      var largeNode := largeList;
      while largeNode != null
        invariant 0 <= count <= |records| && largeNode == if count < |records| then records[count] else null
        invariant FreeRecord(larges, 0) == FreeRecord(larges, count)
        decreases |records| - count
      {
        if largeNode.address == 0 {
          largeNode.size := size % UINT;
          largeNode.address := large;
          larges := larges[count := largeNode.View()];
          return true;
        }
        if count > 3 {
          break;
        }
        count := count + 1;
        largeNode := largeNode.next;
      }
      return false;
    }

    /** `mallocLargeNode` */
    method MallocLargeNode(size: nat, large: nat, block: nat) returns (addr: nat)
      requires Valid()
      modifies this, smallNodes, largeNodes
      ensures Valid() && (State(), addr) == MallocLarge(old(State()), size, large, block)
      ensures fresh(smallNodes - old(smallNodes)) && fresh(largeNodes - old(largeNodes))
    {
      hide BlocksValid;
      if large == 0 {
        return 0;
      }
      var found := ReuseRecord(size, large);
      if found {
        return large;
      }
      addr := PushRecord(size, large, block);
    }

    /** A new record for a large block, itself allocated in the pool. */
    method PushRecord(size: nat, large: nat, block: nat) returns (addr: nat)
      requires Valid() && large != 0 && FreeRecord(larges, 0) >= |larges|
      modifies this, smallNodes, largeNodes
      ensures Valid() && (State(), addr) == MallocLarge(old(State()), size, large, block)
      ensures fresh(smallNodes - old(smallNodes)) && fresh(largeNodes - old(largeNodes))
    {
      hide BlocksValid, RecordsValid;
      var record := MallocSmallBlock(SIZEOF_LARGE_NODE, block);
      if record == 0 {
        return 0;
      }
      AddRecord(record, large, size % UINT);
      return large;
    }

    method AddRecord(record: nat, address: nat, size: nat)
      requires RecordsValid()
      modifies `largeList, `records, `larges, `largeNodes
      ensures RecordsValid() && larges == [Large(record, address, size)] + old(larges)
      ensures fresh(largeNodes - old(largeNodes))
    {
      var node := new LargeNode(record, address, size, largeList, |records|);
      largeList := node;
      records, larges, largeNodes := [node] + records, [node.View()] + larges, largeNodes + {node};
    }

    method Malloc(size: nat, large: nat, block: nat) returns (addr: nat)
      requires Valid()
      modifies this, smallNodes, largeNodes
      ensures Valid() && (State(), addr) == PoolSpec.Malloc(old(State()), size, large, block)
      ensures fresh(smallNodes - old(smallNodes)) && fresh(largeNodes - old(largeNodes))
    {
      hide BlocksValid, RecordsValid;
      if size <= 0 {
        return 0;
      }
      if size > PAGE_SIZE - SIZEOF_SMALL_NODE {
        addr := MallocLargeNode(size, large, block);
      } else {
        addr := MallocSmallBlock(size, block);
      }
    }

    /** The walk of `freeMemory` through the records. */
    method ClearRecord(p: nat) returns (found: bool)
      requires RecordsValid()
      modifies `larges, largeNodes
      ensures RecordsValid()
      ensures var ls, k := old(larges), RecordOf(old(larges), 0, p);
        && found == (k < |ls|)
        && larges == if found then ls[k := ls[k].(address := 0, size := 0)] else ls
    {
      var large := largeList;
      ghost var k := 0;
      while large != null
        invariant 0 <= k <= |records| && large == if k < |records| then records[k] else null
        invariant RecordOf(larges, 0, p) == RecordOf(larges, k, p)
        decreases |records| - k
      {
        if large.address == p {
          large.size := 0;
          large.address := 0;
          larges := larges[k := large.View()];
          return true;
        }
        large := large.next;
        k := k + 1;
      }
      return false;
    }

    /** The walk of `freeMemory` through the blocks. */
    method DropReference(p: nat)
      requires BlocksValid()
      modifies `current, `blocks, `place, smallNodes
      ensures BlocksValid()
      ensures var i := BlockOf(old(blocks), 0, p);
        State() == if i < |old(blocks)| then Release(old(State()), i) else old(State())
    {
      hide BlocksValid;
      BlocksAre();
      var small: SmallNode? := head;
      ghost var i := 0;
      while small != null
        invariant 0 <= i <= |nodes| && small == if i < |nodes| then nodes[i] else null
        invariant BlocksValid() && place == old(place) && blocks == old(blocks)
        invariant BlockOf(blocks, 0, p) == BlockOf(blocks, i, p)
        decreases |nodes| - i
      {
        BlockIs(i);
        if small.base <= p && p <= small.end {
          var quote := (small.quote - 1) % UINT;
          if quote == 0 {
            if small == head {
              Update(small, page + SIZEOF_POOL + SIZEOF_SMALL_NODE, quote, 0, i);
            } else {
              Update(small, small.base + SIZEOF_SMALL_NODE, quote, 0, i);
            }
            Restart();
          } else {
            Update(small, small.last, quote, small.failed, i);
          }
          return;
        }
        small := small.next;
        i := i + 1;
      }
    }

    method FreeMemory(p: nat)
      requires Valid()
      modifies `current, `blocks, `place, `larges, smallNodes, largeNodes
      ensures Valid() && State() == Free(old(State()), p)
    {
      hide BlocksValid, RecordsValid;
      var found := ClearRecord(p);
      if !found {
        DropReference(p);
      }
    }

    method ResetPool()
      requires Valid()
      modifies `largeList, `records, `larges, `largeNodes, `current, `place, `blocks, smallNodes
      ensures Valid() && State() == Reset(old(State()))
    {
      hide BlocksValid;
      largeList := null;
      records, larges, largeNodes := [], [], {};
      Restart();
      ResetBlocks();
    }

    /** The walk of `resetPool` through the blocks. */
    method ResetBlocks()
      requires BlocksValid()
      modifies `blocks, smallNodes
      ensures BlocksValid() && |blocks| == |old(blocks)|
      ensures forall j :: 0 <= j < |blocks| ==> blocks[j] == Rewound(old(blocks)[j]).(quote := 0)
    {
      hide BlocksValid;
      BlocksAre();
      var small: SmallNode? := head;
      ghost var i := 0;
      while small != null
        invariant BlocksValid() && |blocks| == |nodes| == |old(blocks)|
        invariant 0 <= i <= |nodes| && small == if i < |nodes| then nodes[i] else null
        invariant forall j :: 0 <= j < |blocks| ==>
          blocks[j] == if j < i then Rewound(old(blocks)[j]).(quote := 0) else old(blocks)[j]
        decreases |nodes| - i
      {
        BlockIs(i);
        Update(small, small.base + SIZEOF_SMALL_NODE, 0, 0, i);
        small := small.next;
        i := i + 1;
      }
    }
  }

  /** The handle that users of the library hold. */
  class MemoryPool {
    var pool: Allocator?

    constructor ()
      ensures pool == null
    {
      pool := null;
    }

    /** `createPool`: when the system has no page, the handle stays as it was. */
    method CreatePool(page: nat)
      modifies this
      ensures page == 0 ==> pool == old(pool)
      ensures page != 0 ==> pool != null && fresh(pool) && pool.Valid() && pool.State() == Created(page)
    {
      if page == 0 {
        return;
      }
      pool := new Allocator.CreatePool(page);
    }
  }
}
