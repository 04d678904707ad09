/** What each operation of the pool does to it, in plain arithmetic: the answer, where
 *  `last_` is afterwards, and that nothing else changes.
 */
module PoolExact {
  import opened Common
  import opened PoolSpec
  import opened PoolInvariant
  import opened PoolRuns
  import opened PoolSearch

  /** `a` is the least multiple of 16 from `last` on, and the page has room from there. */
  predicate RoomAt(b: Block, a: nat, size: nat) {
    a % 16 == 0 && b.last <= a < b.last + 16 && a + size <= b.end
  }

  lemma RoomIsFit(b: Block, a: nat, size: nat)
    requires BlockOk(b)
    ensures RoomAt(b, a, size) <==> Fits(b, size) && a == AlignPtr(b.last)
  {
    FitsIsExact(b, size);
    AlignPtrIsLeast(b.last);
    if RoomAt(b, a, size) {
      OneMultiple(a, AlignPtr(b.last), b.last);
    }
  }

  lemma RoomOf(b: Block, size: nat)
    requires BlockOk(b) && Fits(b, size)
    ensures RoomAt(b, AlignPtr(b.last), size)
  {
    RoomIsFit(b, AlignPtr(b.last), size);
  }

  /** `i` is the first page visited that has room, at `a`. */
  ghost predicate FirstRoom(s: Pool, size: nat, i: nat, a: nat) {
    s.current <= i < |s.blocks| && RoomAt(s.blocks[i], a, size)
    && forall j, c :: s.current <= j < i ==> !RoomAt(s.blocks[j], c, size)
  }

  /** No page visited has room. */
  ghost predicate NoneHasRoom(s: Pool, size: nat) {
    forall j, c :: s.current <= j < |s.blocks| ==> !RoomAt(s.blocks[j], c, size)
  }

  lemma FirstIs(s: Pool, size: nat, i: nat, a: nat)
    requires BlocksOk(s) && FirstRoom(s, size, i, a)
    ensures i < |s.blocks| && FirstFit(s.blocks, s.current, size) == i && AlignPtr(s.blocks[i].last) == a
  {
    FirstFitFinds(s.blocks, s.current, size);
    RoomIsFit(s.blocks[i], a, size);
    var f := FirstFit(s.blocks, s.current, size);
    if f < i {
      RoomOf(s.blocks[f], size);
    }
  }

  lemma NoneIs(s: Pool, size: nat)
    requires BlocksOk(s) && NoneHasRoom(s, size)
    ensures FirstFit(s.blocks, s.current, size) == |s.blocks|
  {
    FirstFitFinds(s.blocks, s.current, size);
    var f := FirstFit(s.blocks, s.current, size);
    if f < |s.blocks| {
      RoomOf(s.blocks[f], size);
    }
  }

  lemma CutsExactly(s: Pool, size: nat, page: nat, i: nat, a: nat)
    requires BlocksOk(s) && FirstRoom(s, size, i, a) && s.blocks[i].quote + 1 < UINT
    ensures var b := s.blocks[i];
      MallocSmall(s, size, page) == (s.(blocks := s.blocks[i := Block(b.base, b.end, a + size, b.quote + 1, b.failed)]), a)
  {
    hide BlocksOk, FirstRoom, FirstFit, AlignPtr, RoomAt, Fits;
    FirstIs(s, size, i, a);
  }

  /** A small request is cut from the first page visited that has room: from the least
      multiple of 16 on, the size of the request and no more, and counted once. */
  lemma MallocCutsExactly(w: World, size: nat, large: nat, page: nat, i: nat, a: nat)
    requires Inv(w) && 0 < size <= 4064 && FirstRoom(w.pool, size, i, a)
    ensures var b := w.pool.blocks[i];
      Malloc(w.pool, size, large, page)
      == (w.pool.(blocks := w.pool.blocks[i := Block(b.base, b.end, a + size, b.quote + 1, b.failed)]), a)
  {
    QuoteIsSmall(w.pool, w.small, i);
    hide MallocSmall, BlocksOk, Counted, Placed, Apart, PagesApart, RecordsOk, AddressesOk, BigOk, RoomAt;
    CutsExactly(w.pool, size, page, i, a);
  }

  /** The page that was current, or the one behind the last visited page short of the
      tail that had failed five times. */
  predicate MovesTo(s: Pool, c: nat) {
    && s.current <= c < |s.blocks|
    && (c > s.current ==> s.blocks[c - 1].failed >= 5)
    && forall j :: c <= j < |s.blocks| - 1 ==> s.blocks[j].failed < 5
  }

  /** `s'` is `s` with a new page at the end of the list and the request in front of it;
      every page visited short of the tail has failed once more, and the current page
      has moved. */
  predicate MapsTo(s: Pool, s': Pool, size: nat, page: nat) {
    var bs := s.blocks;
    && s' == s.(blocks := s'.blocks, current := s'.current) && MovesTo(s, s'.current)
    && |s'.blocks| == |bs| + 1 && s'.blocks[|bs|] == Block(page, page + 4096, page + 32 + size, 1, 0)
    && forall j :: 0 <= j < |bs| ==>
         s'.blocks[j] == bs[j].(failed := if s.current <= j < |bs| - 1 then (bs[j].failed + 1) % UINT else bs[j].failed)
  }

  lemma MapsExactly(s: Pool, size: nat, page: nat)
    requires s.current < |s.blocks| && page > 0 && page % ALIGNMENT == 0 && page + PAGE_SIZE <= ADDRESS_LIMIT
    ensures MapsTo(s, NewBlock(s, size, page).0, size, page) && NewBlock(s, size, page).1 == page + 32
  {
    assert AlignPtr(page + 32) == page + 32 by {
      AlignPtrIsLeast(page + 32);
    }
    SkipPastIs(s.blocks, s.current, s.current);
    hide AlignPtr, SkipPast;
  }

  /** With no room in any page visited, a request is served from a new page in this way,
      and without a new page nothing changes. */
  lemma MallocMapsExactly(w: World, size: nat, large: nat, page: nat)
    requires Inv(w) && 0 < size <= 4064 && Legal(w, Allocate(size, large, page)) && NoneHasRoom(w.pool, size)
    ensures page == 0 ==> Malloc(w.pool, size, large, page) == (w.pool, 0)
    ensures page != 0 ==> var (s, a) := Malloc(w.pool, size, large, page); a == page + 32 && MapsTo(w.pool, s, size, page)
  {
    hide Counted, Placed, Apart, PagesApart, RecordsOk, AddressesOk, BigOk, NoneHasRoom, Fits, FirstFit, MapsTo;
    NoneIs(w.pool, size);
    CurrentOk(w);
    hide Inv, NewBlock;
    if page != 0 {
      MapsExactly(w.pool, size, page);
    } else {
      NoPage(w.pool, size);
    }
  }

  lemma NoPage(s: Pool, size: nat)
    ensures NewBlock(s, size, 0) == (s, 0)
  {
  }

  lemma {:induction false} FreeRecordIs(ls: seq<Large>, i: nat, k: nat)
    requires i <= k < |ls| && k < 5 && ls[k].address == 0 && forall j :: i <= j < k ==> ls[j].address != 0
    ensures FreeRecord(ls, i) == k
    decreases k - i
  {
    if i < k {
      FreeRecordIs(ls, i + 1, k);
    }
  }

  /** A large block is entered in the first free one of the first five records. */
  lemma MallocReusesExactly(s: Pool, size: nat, large: nat, page: nat, k: nat)
    requires size > 4064 && large != 0
    requires k < |s.larges| && k < 5 && s.larges[k].address == 0 && forall j :: 0 <= j < k ==> s.larges[j].address != 0
    ensures Malloc(s, size, large, page)
         == (s.(larges := s.larges[k := Large(s.larges[k].record, large, size % UINT)]), large)
  {
    FreeRecordIs(s.larges, 0, k);
  }

  /** With none free among them, the pool serves a request for 24 bytes, and what that
      gives is the new first record. */
  lemma MallocRecordsExactly(s: Pool, size: nat, large: nat, page: nat)
    requires size > 4064 && large != 0 && forall k :: 0 <= k < |s.larges| && k < 5 ==> s.larges[k].address != 0
    ensures var (s', record) := Malloc(s, 24, 0, page);
      Malloc(s, size, large, page)
      == if record == 0 then (s', 0) else (s'.(larges := [Large(record, large, size % UINT)] + s'.larges), large)
  {
    FreeRecordMisses(s.larges, 0);
    FreeRecordFinds(s.larges, 0);
    hide MallocSmall;
  }

  /** A new pool: one page, with everything behind the two headers free. */
  lemma CreatedExactly(page: nat)
    ensures Created(page) == Pool(page, [Block(page + 24, page + 4096, page + 56, 0, 0)], 0, [])
  {
  }

  /** A reset frees every page down to its header, and forgets all counts and records. */
  lemma ResetExactly(s: Pool)
    ensures var s' := Reset(s);
      && s' == Pool(s.page, s'.blocks, 0, []) && |s'.blocks| == |s.blocks|
      && forall i :: 0 <= i < |s.blocks| ==>
           s'.blocks[i] == Block(s.blocks[i].base, s.blocks[i].end, s.blocks[i].base + 32, 0, 0)
  {
  }

  /** Two requests for 16 bytes are served one behind the other. */
  lemma TwoRequests()
    ensures var (s, a) := Malloc(Created(4096), 16, 0, 0);
      a == 4160 && Malloc(s, 16, 0, 0).1 == 4176
  {
    StartOk(4096);
    var w := Start(4096);
    MallocCutsExactly(w, 16, 0, 0, 0, 4160);
    var w' := Apply(w, Allocate(16, 0, 0));
    StepKeeps(w, Allocate(16, 0, 0));
    hide Inv, Malloc, Legal;
    MallocCutsExactly(w', 16, 0, 0, 0, 4176);
  }
}
