/** What each operation of the memory pool does to the pool, on values.
 *
 *  A pool is one page that starts with the `Pool` and a first `SmallNode`, a list
 *  of further pages that each start with a `SmallNode`, and a list of `LargeNode`
 *  records that live inside those pages.  Lists are sequences here and addresses
 *  are numbers, with 0 for a null pointer; class `MemoryPool.Allocator` is the linked
 *  form.  Each `posix_memalign` answer is a parameter, 0 when it fails.
 */
module PoolSpec {
  import opened Common

  const PAGE_SIZE: nat := 4096
  const ALIGNMENT: nat := 16
  const SIZEOF_POOL: nat := 24
  const SIZEOF_SMALL_NODE: nat := 32
  const SIZEOF_LARGE_NODE: nat := 24
  const MAX_SMALL: nat := PAGE_SIZE - SIZEOF_SMALL_NODE
  // Number of values of an unsigned int.
  const UINT: nat := 0x1_0000_0000

  datatype Block = Block(base: nat, end: nat, last: nat, quote: nat, failed: nat)

  datatype Large = Large(record: nat, address: nat, size: nat)

  datatype Pool = Pool(page: nat, blocks: seq<Block>, current: nat, larges: seq<Large>)

  /** `mp_align_ptr`, with the wrap-around of size_t. */
  function AlignPtr(p: nat): nat {
    var q := (p + ALIGNMENT - 1) % SIZE_T;
    q - q % ALIGNMENT
  }

  /** `end_ - addr` as the unsigned comparison against `size` sees it. */
  function Room(b: Block): nat {
    (b.end - AlignPtr(b.last)) % SIZE_T
  }

  predicate Fits(b: Block, size: nat) {
    Room(b) >= size
  }

  function Created(page: nat): Pool {
    Pool(page,
         [Block(page + SIZEOF_POOL, page + PAGE_SIZE, page + SIZEOF_POOL + SIZEOF_SMALL_NODE, 0, 0)],
         0, [])
  }

  /** The first block from index `i` on that fits, or the number of blocks. */
  function FirstFit(bs: seq<Block>, i: nat, size: nat): nat
    decreases |bs| - i
  {
    if i >= |bs| then |bs|
    else if Fits(bs[i], size) then i
    else FirstFit(bs, i + 1, size)
  }

  function Take(b: Block, size: nat): Block {
    b.(last := AlignPtr(b.last) + size, quote := (b.quote + 1) % UINT)
  }

  /** Every block from `from` on, except the last, has failed once more. */
  function Age(bs: seq<Block>, from: nat): seq<Block> {
    seq(|bs|, j requires 0 <= j < |bs| =>
      if from <= j < |bs| - 1 then bs[j].(failed := (bs[j].failed + 1) % UINT) else bs[j])
  }

  /** Where `current_` ends up: after the last block, short of the tail, that had
      already failed five times. */
  function SkipPast(bs: seq<Block>, i: nat, current: nat): nat
    decreases |bs| - i
  {
    if i + 1 >= |bs| then current
    else SkipPast(bs, i + 1, if bs[i].failed >= 5 then i + 1 else current)
  }

  function NewBlock(s: Pool, size: nat, page: nat): (Pool, nat) {
    if page == 0 then (s, 0)
    else
      var addr := AlignPtr(page + SIZEOF_SMALL_NODE);
      var b := Block(page, page + PAGE_SIZE, addr + size, 1, 0);
      (s.(blocks := Age(s.blocks, s.current) + [b],
          current := SkipPast(s.blocks, s.current, s.current)), addr)
  }

  function MallocSmall(s: Pool, size: nat, page: nat): (Pool, nat) {
    var i := FirstFit(s.blocks, s.current, size);
    if i < |s.blocks| then
      (s.(blocks := s.blocks[i := Take(s.blocks[i], size)]), AlignPtr(s.blocks[i].last))
    else NewBlock(s, size, page)
  }

  /** A record without a large block among the first five, or the number of records. */
  function FreeRecord(ls: seq<Large>, i: nat): nat
    decreases |ls| - i
  {
    if i >= |ls| then |ls|
    else if ls[i].address == 0 then i
    else if i > 3 then |ls|
    else FreeRecord(ls, i + 1)
  }

  function MallocLarge(s: Pool, size: nat, large: nat, page: nat): (Pool, nat) {
    if large == 0 then (s, 0)
    else
      var k := FreeRecord(s.larges, 0);
      if k < |s.larges| then
        (s.(larges := s.larges[k := s.larges[k].(address := large, size := size % UINT)]), large)
      else
        var (s', record) := MallocSmall(s, SIZEOF_LARGE_NODE, page);
        if record == 0 then (s', 0)
        else (s'.(larges := [Large(record, large, size % UINT)] + s'.larges), large)
  }

  function Malloc(s: Pool, size: nat, large: nat, page: nat): (Pool, nat) {
    if size == 0 then (s, 0)
    else if size > MAX_SMALL then MallocLarge(s, size, large, page)
    else MallocSmall(s, size, page)
  }

  /** The first record whose large block starts at `p`, or the number of records. */
  function RecordOf(ls: seq<Large>, i: nat, p: nat): nat
    decreases |ls| - i
  {
    if i >= |ls| then |ls|
    else if ls[i].address == p then i
    else RecordOf(ls, i + 1, p)
  }

  /** The address test of `freeMemory`; both ends are inclusive. */
  predicate Spans(b: Block, p: nat) {
    b.base <= p <= b.end
  }

  function BlockOf(bs: seq<Block>, i: nat, p: nat): nat
    decreases |bs| - i
  {
    if i >= |bs| then |bs|
    else if Spans(bs[i], p) then i
    else BlockOf(bs, i + 1, p)
  }

  function Rewound(b: Block): Block {
    b.(last := b.base + SIZEOF_SMALL_NODE, failed := 0)
  }

  /** One reference of block `i` dropped, rewinding the block when it was the last. */
  function Release(s: Pool, i: nat): Pool
    requires i < |s.blocks|
  {
    var b := s.blocks[i].(quote := (s.blocks[i].quote - 1) % UINT);
    if b.quote == 0 then
      s.(blocks := s.blocks[i := if i == 0 then b.(last := s.page + SIZEOF_POOL + SIZEOF_SMALL_NODE, failed := 0)
                                 else Rewound(b)],
         current := 0)
    else s.(blocks := s.blocks[i := b])
  }

  function Free(s: Pool, p: nat): Pool {
    var k := RecordOf(s.larges, 0, p);
    if k < |s.larges| then s.(larges := s.larges[k := s.larges[k].(address := 0, size := 0)])
    else
      var i := BlockOf(s.blocks, 0, p);
      if i < |s.blocks| then Release(s, i) else s
  }

  function Reset(s: Pool): Pool {
    s.(blocks := seq(|s.blocks|, j requires 0 <= j < |s.blocks| => Rewound(s.blocks[j]).(quote := 0)),
       current := 0,
       larges := [])
  }
}
