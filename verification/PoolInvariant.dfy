/** What stays true of a pool together with a ledger of everything handed out. */
module PoolInvariant {
  import opened Common
  import opened PoolSpec

  // No object of a C++ program reaches past half of the address space.
  const ADDRESS_LIMIT: nat := SIZE_T / 2

  /** `small` maps each live allocation inside a page, the pool's own records
      included, to its size; `big` does the same for the live large blocks. */
  datatype World = World(pool: Pool, small: map<nat, nat>, big: map<nat, nat>)

  predicate BlockOk(b: Block) {
    && b.end % ALIGNMENT == 0
    && PAGE_SIZE < b.end <= ADDRESS_LIMIT
    && b.base + SIZEOF_SMALL_NODE <= b.last <= b.end
  }

  predicate BlocksOk(s: Pool) {
    && |s.blocks| > 0
    && s.current < |s.blocks|
    && s.blocks[0].end == s.page + PAGE_SIZE
    && s.blocks[0].base == s.page + SIZEOF_POOL
    && (forall i :: 0 <= i < |s.blocks| ==> BlockOk(s.blocks[i]))
    && (forall i :: 0 < i < |s.blocks| ==> s.blocks[i].base == s.blocks[i].end - PAGE_SIZE)
  }

  predicate PagesApart(bs: seq<Block>) {
    forall i, j :: 0 <= i < |bs| && 0 <= j < |bs| && i != j ==>
      bs[i].end + PAGE_SIZE <= bs[j].end || bs[j].end + PAGE_SIZE <= bs[i].end
  }

  /** The allocation lies after the block's header and below its `last_`. */
  predicate Within(b: Block, a: nat, n: nat) {
    b.base + SIZEOF_SMALL_NODE <= a && a + n <= b.last
  }

  ghost predicate Placed(bs: seq<Block>, small: map<nat, nat>) {
    forall a :: a in small ==>
      a % ALIGNMENT == 0 && small[a] > 0 && exists i :: 0 <= i < |bs| && Within(bs[i], a, small[a])
  }

  /** No two allocations overlap. */
  predicate Apart(m: map<nat, nat>) {
    forall a, c :: a in m && c in m && a < c ==> a + m[a] <= c
  }

  function Inside(small: map<nat, nat>, b: Block): set<nat> {
    set a | a in small && b.base <= a < b.end
  }

  predicate Counted(bs: seq<Block>, small: map<nat, nat>) {
    forall i :: 0 <= i < |bs| ==> bs[i].quote == |Inside(small, bs[i])|
  }

  ghost predicate SmallOk(s: Pool, small: map<nat, nat>) {
    BlocksOk(s) && PagesApart(s.blocks) && Placed(s.blocks, small) && Apart(small) && Counted(s.blocks, small)
  }

  predicate RecordsOk(ls: seq<Large>, small: map<nat, nat>) {
    && (forall k :: 0 <= k < |ls| ==> ls[k].record in small && small[ls[k].record] == SIZEOF_LARGE_NODE)
    && (forall k, l :: 0 <= k < l < |ls| ==> ls[k].record != ls[l].record)
  }

  /** The records with an address are exactly the live large blocks, one each. */
  ghost predicate AddressesOk(ls: seq<Large>, big: map<nat, nat>) {
    && (forall k :: 0 <= k < |ls| ==>
          if ls[k].address == 0 then ls[k].size == 0
          else ls[k].address in big && ls[k].size == big[ls[k].address] % UINT)
    && (forall k, l :: 0 <= k < l < |ls| && ls[k].address != 0 ==> ls[k].address != ls[l].address)
    && (forall a :: a in big ==> exists k :: 0 <= k < |ls| && ls[k].address == a)
  }

  predicate ClearOfPages(bs: seq<Block>, a: nat, n: nat) {
    forall i :: 0 <= i < |bs| ==> a + n + PAGE_SIZE <= bs[i].end || bs[i].end <= a
  }

  predicate ClearOf(m: map<nat, nat>, a: nat, n: nat) {
    forall c :: c in m ==> a + n <= c || c + m[c] <= a
  }

  predicate BigOk(bs: seq<Block>, big: map<nat, nat>) {
    && (forall a :: a in big ==>
          a > 0 && a % ALIGNMENT == 0 && big[a] > MAX_SMALL && a + big[a] <= ADDRESS_LIMIT && ClearOfPages(bs, a, big[a]))
    && Apart(big)
  }

  ghost predicate Inv(w: World) {
    && SmallOk(w.pool, w.small)
    && RecordsOk(w.pool.larges, w.small)
    && AddressesOk(w.pool.larges, w.big)
    && BigOk(w.pool.blocks, w.big)
  }

  /** What `posix_memalign` promises: aligned memory that overlaps nothing outstanding. */
  predicate Fresh(w: World, a: nat, n: nat) {
    && a > 0 && a % ALIGNMENT == 0 && a + n <= ADDRESS_LIMIT
    && ClearOfPages(w.pool.blocks, a, n)
    && ClearOf(w.big, a, n)
  }

  // ---------- alignment ----------

  /** In the address space a program can use, alignment does not wrap: it gives the
      least multiple of 16 that is not below the pointer. */
  lemma AlignPtrIsLeast(p: nat)
    requires p <= SIZE_T - ALIGNMENT
    ensures p <= AlignPtr(p) < p + ALIGNMENT && AlignPtr(p) % ALIGNMENT == 0
    ensures forall q: nat :: p <= q && q % ALIGNMENT == 0 ==> AlignPtr(p) <= q
  {
  }

  /** The unsigned test never wraps: it says that the aligned piece ends inside the block. */
  lemma FitsIsExact(b: Block, size: nat)
    requires BlockOk(b)
    ensures Fits(b, size) <==> AlignPtr(b.last) + size <= b.end
    ensures b.last <= AlignPtr(b.last) <= b.end && AlignPtr(b.last) % ALIGNMENT == 0
  {
    AlignPtrIsLeast(b.last);
  }

  // ---------- counting ----------

  lemma OneMultiple(a: nat, c: nat, lo: nat)
    requires a % ALIGNMENT == 0 && c % ALIGNMENT == 0 && lo <= a < lo + ALIGNMENT && lo <= c < lo + ALIGNMENT
    ensures a == c
  {
    var x, y := a / ALIGNMENT, c / ALIGNMENT;
    assert a == ALIGNMENT * x && c == ALIGNMENT * y;
  }

  /** At most `n` multiples of 16 lie in a range of 16 * n addresses. */
  lemma {:induction false} FewMultiples(s: set<nat>, lo: nat, n: nat)
    requires forall a :: a in s ==> a % ALIGNMENT == 0 && lo <= a < lo + ALIGNMENT * n
    ensures |s| <= n
    decreases n
  {
    if n == 0 {
      assert forall a :: a !in s;
      assert s == {};
    } else {
      var bound := lo + ALIGNMENT * (n - 1);
      if a :| a in s && bound <= a {
        forall c | c in s - {a} ensures c < bound {
          if bound <= c {
            OneMultiple(a, c, bound);
          }
        }
        FewMultiples(s - {a}, lo, n - 1);
      } else {
        FewMultiples(s, lo, n - 1);
      }
    }
  }

  /** So no counter of a block can overflow. */
  lemma QuoteIsSmall(s: Pool, small: map<nat, nat>, i: nat)
    requires SmallOk(s, small) && i < |s.blocks|
    ensures s.blocks[i].quote <= PAGE_SIZE / ALIGNMENT
  {
    var b := s.blocks[i];
    FewMultiples(Inside(small, b), b.end - PAGE_SIZE, PAGE_SIZE / ALIGNMENT);
  }

  lemma InsideAdd(small: map<nat, nat>, b: Block, a: nat, n: nat)
    requires a !in small
    ensures |Inside(small[a := n], b)| == |Inside(small, b)| + if b.base <= a < b.end then 1 else 0
  {
    if b.base <= a < b.end {
      assert Inside(small[a := n], b) == Inside(small, b) + {a};
    } else {
      assert Inside(small[a := n], b) == Inside(small, b);
    }
  }

  lemma InsideSame(small: map<nat, nat>, b: Block, c: Block)
    requires b.base == c.base && b.end == c.end
    ensures Inside(small, b) == Inside(small, c)
  {
  }

  lemma InsideRemove(small: map<nat, nat>, b: Block, a: nat)
    requires a in small
    ensures |Inside(small - {a}, b)| == |Inside(small, b)| - if b.base <= a < b.end then 1 else 0
  {
    if b.base <= a < b.end {
      assert Inside(small - {a}, b) == Inside(small, b) - {a};
    } else {
      assert Inside(small - {a}, b) == Inside(small, b);
    }
  }

  /** An allocation is inside the page of one block and of no other. */
  lemma HomeIsUnique(s: Pool, small: map<nat, nat>, a: nat) returns (i: nat)
    requires SmallOk(s, small) && a in small
    ensures i < |s.blocks| && Within(s.blocks[i], a, small[a]) && s.blocks[i].base <= a < s.blocks[i].end
    ensures forall j :: 0 <= j < |s.blocks| && j != i ==> !Spans(s.blocks[j], a)
  {
    i :| 0 <= i < |s.blocks| && Within(s.blocks[i], a, small[a]);
    forall j | 0 <= j < |s.blocks| && j != i ensures !Spans(s.blocks[j], a) {
      assert BlockOk(s.blocks[i]) && BlockOk(s.blocks[j]);
    }
  }

  // ---------- searches ----------

  lemma {:induction false} FirstFitFinds(bs: seq<Block>, i: nat, size: nat)
    requires i <= |bs|
    ensures i <= FirstFit(bs, i, size) <= |bs|
    ensures FirstFit(bs, i, size) < |bs| ==> Fits(bs[FirstFit(bs, i, size)], size)
    ensures forall j :: i <= j < FirstFit(bs, i, size) ==> !Fits(bs[j], size)
    decreases |bs| - i
  {
    if i < |bs| && !Fits(bs[i], size) {
      FirstFitFinds(bs, i + 1, size);
    }
  }

  lemma {:induction false} SkipPastStays(bs: seq<Block>, i: nat, current: nat)
    requires i < |bs| && current <= i
    ensures current <= SkipPast(bs, i, current) < |bs|
    decreases |bs| - i
  {
    if i + 1 < |bs| {
      SkipPastStays(bs, i + 1, if bs[i].failed >= 5 then i + 1 else current);
    }
  }

  lemma {:induction false} FreeRecordFinds(ls: seq<Large>, i: nat)
    requires i <= |ls|
    ensures i <= FreeRecord(ls, i) <= |ls|
    ensures FreeRecord(ls, i) < |ls| ==> ls[FreeRecord(ls, i)].address == 0
    decreases |ls| - i
  {
    if i < |ls| && ls[i].address != 0 && i <= 3 {
      FreeRecordFinds(ls, i + 1);
    }
  }

  lemma {:induction false} RecordOfFinds(ls: seq<Large>, i: nat, p: nat)
    requires i <= |ls|
    ensures i <= RecordOf(ls, i, p) <= |ls|
    ensures RecordOf(ls, i, p) < |ls| ==> ls[RecordOf(ls, i, p)].address == p
    ensures forall j :: i <= j < RecordOf(ls, i, p) ==> ls[j].address != p
    decreases |ls| - i
  {
    if i < |ls| && ls[i].address != p {
      RecordOfFinds(ls, i + 1, p);
    }
  }

  lemma {:induction false} BlockOfFinds(bs: seq<Block>, i: nat, p: nat)
    requires i <= |bs|
    ensures i <= BlockOf(bs, i, p) <= |bs|
    ensures BlockOf(bs, i, p) < |bs| ==> Spans(bs[BlockOf(bs, i, p)], p)
    ensures forall j :: i <= j < BlockOf(bs, i, p) ==> !Spans(bs[j], p)
    decreases |bs| - i
  {
    if i < |bs| && !Spans(bs[i], p) {
      BlockOfFinds(bs, i + 1, p);
    }
  }

  // ---------- one more allocation ----------

  /** The blocks of `bs` are still there, on the same pages and not less used. */
  predicate Extends(bs: seq<Block>, bs': seq<Block>) {
    |bs| <= |bs'| && forall j :: 0 <= j < |bs| ==>
      bs'[j].base == bs[j].base && bs'[j].end == bs[j].end && bs[j].last <= bs'[j].last
  }

  lemma AddPlaced(bs: seq<Block>, bs': seq<Block>, small: map<nat, nat>, i: nat, a: nat, n: nat)
    requires Placed(bs, small) && Extends(bs, bs')
    requires i < |bs'| && Within(bs'[i], a, n) && a % ALIGNMENT == 0 && n > 0
    ensures Placed(bs', small[a := n])
  {
    var small' := small[a := n];
    forall c | c in small' ensures exists j :: 0 <= j < |bs'| && Within(bs'[j], c, small'[c]) {
      if c == a {
        assert Within(bs'[i], c, n);
      } else {
        var j :| 0 <= j < |bs| && Within(bs[j], c, small[c]);
        assert Within(bs'[j], c, small'[c]);
      }
    }
  }

  lemma AddApart(small: map<nat, nat>, a: nat, n: nat)
    requires Apart(small) && a !in small && ClearOf(small, a, n)
    ensures Apart(small[a := n])
  {
  }

  /** What lies before `lo` or from `hi` on, given block by block, for the ledger. */
  lemma SmallClear(s: Pool, small: map<nat, nat>, a: nat, n: nat)
    requires SmallOk(s, small)
    requires forall j :: 0 <= j < |s.blocks| ==>
      var b := s.blocks[j]; b.last <= a || a + n <= b.base + SIZEOF_SMALL_NODE
    ensures ClearOf(small, a, n)
    ensures n > 0 ==> a !in small
  {
    forall c | c in small ensures c + small[c] <= a || a + n <= c {
      var h :| 0 <= h < |s.blocks| && Within(s.blocks[h], c, small[c]);
    }
  }

  // ---------- a piece of a block ----------

  lemma TakeClear(s: Pool, small: map<nat, nat>, i: nat, size: nat)
    requires SmallOk(s, small) && i < |s.blocks| && size > 0 && Fits(s.blocks[i], size)
    ensures AlignPtr(s.blocks[i].last) !in small
    ensures ClearOf(small, AlignPtr(s.blocks[i].last), size)
  {
    var b := s.blocks[i];
    FitsIsExact(b, size);
    forall j | 0 <= j < |s.blocks|
      ensures s.blocks[j].last <= AlignPtr(b.last) || AlignPtr(b.last) + size <= s.blocks[j].base + SIZEOF_SMALL_NODE
    {
      assert BlockOk(s.blocks[j]) && BlockOk(b);
    }
    SmallClear(s, small, AlignPtr(b.last), size);
  }

  /** The next address of a page lies in that page and in no other. */
  lemma NextIsHome(s: Pool, i: nat, addr: nat)
    requires BlocksOk(s) && PagesApart(s.blocks) && i < |s.blocks| && s.blocks[i].last <= addr < s.blocks[i].end
    ensures forall j :: 0 <= j < |s.blocks| ==> (s.blocks[j].base <= addr < s.blocks[j].end <==> j == i)
  {
    forall j | 0 <= j < |s.blocks| ensures s.blocks[j].base <= addr < s.blocks[j].end <==> j == i {
      assert BlockOk(s.blocks[j]) && BlockOk(s.blocks[i]);
    }
  }

  /** One more allocation in page `i` alone, and one more in its count. */
  lemma CountOneMore(bs: seq<Block>, small: map<nat, nat>, i: nat, b: Block, addr: nat, size: nat)
    requires Counted(bs, small) && i < |bs| && addr !in small
    requires forall j :: 0 <= j < |bs| ==> (bs[j].base <= addr < bs[j].end <==> j == i)
    requires b.base == bs[i].base && b.end == bs[i].end && b.quote == bs[i].quote + 1
    ensures Counted(bs[i := b], small[addr := size])
  {
    hide Inside;
    var bs' := bs[i := b];
    forall j | 0 <= j < |bs'| ensures bs'[j].quote == |Inside(small[addr := size], bs'[j])| {
      InsideAdd(small, bs[j], addr, size);
      InsideSame(small[addr := size], bs'[j], bs[j]);
    }
  }

  lemma TakeCounted(s: Pool, small: map<nat, nat>, i: nat, size: nat)
    requires SmallOk(s, small) && i < |s.blocks| && size > 0 && Fits(s.blocks[i], size)
    requires AlignPtr(s.blocks[i].last) !in small
    ensures Counted(s.blocks[i := Take(s.blocks[i], size)], small[AlignPtr(s.blocks[i].last) := size])
  {
    hide Counted, Placed, Apart, Fits, AlignPtr, PagesApart;
    var b := s.blocks[i];
    FitsIsExact(b, size);
    QuoteIsSmall(s, small, i);
    NextIsHome(s, i, AlignPtr(b.last));
    CountOneMore(s.blocks, small, i, Take(b, size), AlignPtr(b.last), size);
  }

  /** Taking an aligned piece from block `i` keeps everything about the small
      allocations, with the piece added to the ledger. */
  lemma TakeKeepsSmall(s: Pool, small: map<nat, nat>, i: nat, size: nat)
    requires SmallOk(s, small) && i < |s.blocks| && size > 0 && Fits(s.blocks[i], size)
    ensures AlignPtr(s.blocks[i].last) !in small
    ensures SmallOk(s.(blocks := s.blocks[i := Take(s.blocks[i], size)]), small[AlignPtr(s.blocks[i].last) := size])
  {
    var b := s.blocks[i];
    var addr := AlignPtr(b.last);
    FitsIsExact(b, size);
    TakeClear(s, small, i, size);
    TakeCounted(s, small, i, size);
    AddApart(small, addr, size);
    assert BlockOk(b);
    AddPlaced(s.blocks, s.blocks[i := Take(b, size)], small, i, addr, size);
  }

  // ---------- a new block ----------

  predicate CanMap(bs: seq<Block>, page: nat) {
    page > 0 && page % ALIGNMENT == 0 && page + PAGE_SIZE <= ADDRESS_LIMIT && ClearOfPages(bs, page, PAGE_SIZE)
  }

  lemma NewBlockShape(s: Pool, size: nat, page: nat)
    requires BlocksOk(s) && 0 < page && page % ALIGNMENT == 0 && page + PAGE_SIZE <= ADDRESS_LIMIT
    ensures NewBlock(s, size, page).1 == page + SIZEOF_SMALL_NODE
    ensures var s' := NewBlock(s, size, page).0;
      Extends(s.blocks, s'.blocks) && |s'.blocks| == |s.blocks| + 1 && s'.current < |s.blocks| &&
      s'.blocks[|s.blocks|] == Block(page, page + PAGE_SIZE, page + SIZEOF_SMALL_NODE + size, 1, 0) &&
      forall j :: 0 <= j < |s.blocks| ==> s'.blocks[j].(failed := s.blocks[j].failed) == s.blocks[j]
  {
    AlignPtrIsLeast(page + SIZEOF_SMALL_NODE);
    SkipPastStays(s.blocks, s.current, s.current);
  }

  lemma NewBlockBlocks(s: Pool, size: nat, page: nat)
    requires BlocksOk(s) && PagesApart(s.blocks) && 0 < size <= MAX_SMALL && CanMap(s.blocks, page)
    ensures var s' := NewBlock(s, size, page).0; BlocksOk(s') && PagesApart(s'.blocks)
  {
    NewBlockShape(s, size, page);
    var bs' := NewBlock(s, size, page).0.blocks;
    forall j | 0 <= j < |bs'|
      ensures BlockOk(bs'[j]) && (0 < j ==> bs'[j].base == bs'[j].end - PAGE_SIZE)
    {
      assert j < |s.blocks| ==> BlockOk(s.blocks[j]);
    }
    assert bs'[0].(failed := s.blocks[0].failed) == s.blocks[0];
    forall i, j | 0 <= i < |bs'| && 0 <= j < |bs'| && i != j
      ensures bs'[i].end + PAGE_SIZE <= bs'[j].end || bs'[j].end + PAGE_SIZE <= bs'[i].end
    {
    }
  }

  lemma NewBlockKeepsSmall(s: Pool, small: map<nat, nat>, size: nat, page: nat)
    requires SmallOk(s, small) && 0 < size <= MAX_SMALL && CanMap(s.blocks, page)
    ensures NewBlock(s, size, page).1 !in small
    ensures SmallOk(NewBlock(s, size, page).0, small[NewBlock(s, size, page).1 := size])
  {
    NewBlockShape(s, size, page);
    NewBlockBlocks(s, size, page);
    var (s', addr) := NewBlock(s, size, page);
    forall j | 0 <= j < |s.blocks|
      ensures s.blocks[j].last <= page || page + PAGE_SIZE <= s.blocks[j].base + SIZEOF_SMALL_NODE
    {
      assert BlockOk(s.blocks[j]);
    }
    SmallClear(s, small, page, PAGE_SIZE);
    AddApart(small, addr, size);
    AddPlaced(s.blocks, s'.blocks, small, |s.blocks|, addr, size);
    NewBlockCounted(s, small, size, page);
  }

  lemma NewBlockCounted(s: Pool, small: map<nat, nat>, size: nat, page: nat)
    requires SmallOk(s, small) && 0 < size <= MAX_SMALL && CanMap(s.blocks, page)
    requires ClearOf(small, page, PAGE_SIZE)
    ensures Counted(NewBlock(s, size, page).0.blocks, small[page + SIZEOF_SMALL_NODE := size])
  {
    NewBlockShape(s, size, page);
    var bs' := NewBlock(s, size, page).0.blocks;
    var addr := page + SIZEOF_SMALL_NODE;
    assert addr !in small;
    forall j | 0 <= j < |bs'| ensures bs'[j].quote == |Inside(small[addr := size], bs'[j])| {
      InsideAdd(small, bs'[j], addr, size);
      if j < |s.blocks| {
        assert BlockOk(s.blocks[j]);
        assert Inside(small, bs'[j]) == Inside(small, s.blocks[j]);
      } else {
        assert Inside(small, bs'[j]) == {};
      }
    }
  }
}
