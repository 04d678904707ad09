/** Runs of the memory pool by a caller that frees only what it was given. */
module PoolRuns {
  import opened Common
  import opened PoolSpec
  import opened PoolInvariant

  /** `Allocate` stands for `malloc` and `calloc`; `large` and `page` are the answers
      of the system to the requests it may make for a large block and for a page. */
  datatype Op = Allocate(size: nat, large: nat, page: nat) | Deallocate(p: nat) | ResetAll

  function Records(s: Pool): set<nat> {
    set k | 0 <= k < |s.larges| :: s.larges[k].record
  }

  /** What the caller holds: a small allocation that is not a record, or a large block. */
  predicate Held(w: World, p: nat) {
    p in w.big || (p in w.small && p !in Records(w.pool))
  }

  predicate Legal(w: World, op: Op) {
    match op
    case Allocate(size, large, page) =>
      && size < SIZE_T
      && (large != 0 ==> Fresh(w, large, size))
      && (page != 0 ==> Fresh(w, page, PAGE_SIZE))
      && (large != 0 && page != 0 ==> large + size <= page || page + PAGE_SIZE <= large)
    case Deallocate(p) => p == 0 || Held(w, p)
    case ResetAll => true
  }

  function Apply(w: World, op: Op): World {
    match op
    case Allocate(size, large, page) =>
      var (s, a) := Malloc(w.pool, size, large, page);
      if a == 0 then World(s, w.small, w.big)
      else if size <= MAX_SMALL then World(s, w.small[a := size], w.big)
      else World(s,
                 if |s.larges| > |w.pool.larges| then w.small[s.larges[0].record := SIZEOF_LARGE_NODE] else w.small,
                 w.big[a := size])
    case Deallocate(p) => World(Free(w.pool, p), w.small - {p}, w.big - {p})
    case ResetAll => World(Reset(w.pool), map[], map[])
  }

  predicate LegalRun(w: World, ops: seq<Op>)
    decreases |ops|
  {
    ops == [] || (Legal(w, ops[0]) && LegalRun(Apply(w, ops[0]), ops[1..]))
  }

  function Run(w: World, ops: seq<Op>): World
    decreases |ops|
  {
    if ops == [] then w else Run(Apply(w, ops[0]), ops[1..])
  }

  function Start(page: nat): World {
    World(Created(page), map[], map[])
  }

  // ---------- one operation ----------

  lemma StartOk(page: nat)
    requires page > 0 && page % ALIGNMENT == 0 && page + PAGE_SIZE <= ADDRESS_LIMIT
    ensures Inv(Start(page))
  {
    var w := Start(page);
    var b := w.pool.blocks[0];
    assert BlockOk(b);
    assert Inside(w.small, b) == {};
  }

  /** A small request either fails and changes nothing, or its answer joins the ledger. */
  lemma MallocSmallKeeps(s: Pool, small: map<nat, nat>, size: nat, page: nat)
    requires SmallOk(s, small) && 0 < size <= MAX_SMALL && (page != 0 ==> CanMap(s.blocks, page))
    ensures var (s', a) := MallocSmall(s, size, page);
      && s'.larges == s.larges
      && (a == 0 ==> s' == s)
      && (a != 0 ==> a !in small && SmallOk(s', small[a := size]))
  {
    FirstFitFinds(s.blocks, s.current, size);
    var i := FirstFit(s.blocks, s.current, size);
    if i < |s.blocks| {
      FitsIsExact(s.blocks[i], size);
      assert BlockOk(s.blocks[i]);
      TakeKeepsSmall(s, small, i, size);
    } else if page != 0 {
      NewBlockShape(s, size, page);
      NewBlockKeepsSmall(s, small, size, page);
    }
  }

  /** A region clear of the pages, and of the page being added, stays clear of them. */
  lemma MallocSmallClear(s: Pool, size: nat, page: nat, c: nat, n: nat)
    requires BlocksOk(s) && (page != 0 ==> CanMap(s.blocks, page))
    requires ClearOfPages(s.blocks, c, n) && (page != 0 ==> c + n <= page || page + PAGE_SIZE <= c)
    ensures ClearOfPages(MallocSmall(s, size, page).0.blocks, c, n)
  {
    FirstFitFinds(s.blocks, s.current, size);
    if FirstFit(s.blocks, s.current, size) >= |s.blocks| && page != 0 {
      NewBlockShape(s, size, page);
    }
  }

  lemma MallocSmallKeepsBig(w: World, size: nat, page: nat)
    requires Inv(w) && (page != 0 ==> Fresh(w, page, PAGE_SIZE))
    ensures BigOk(MallocSmall(w.pool, size, page).0.blocks, w.big)
  {
    forall a | a in w.big ensures ClearOfPages(MallocSmall(w.pool, size, page).0.blocks, a, w.big[a]) {
      MallocSmallClear(w.pool, size, page, a, w.big[a]);
    }
  }

  lemma AddBig(bs: seq<Block>, big: map<nat, nat>, a: nat, n: nat)
    requires BigOk(bs, big) && a > 0 && a % ALIGNMENT == 0 && n > MAX_SMALL && a + n <= ADDRESS_LIMIT
    requires ClearOfPages(bs, a, n) && ClearOf(big, a, n)
    ensures a !in big && BigOk(bs, big[a := n])
  {
    AddApart(big, a, n);
  }

  lemma RecordsOkGrow(ls: seq<Large>, small: map<nat, nat>, a: nat, n: nat)
    requires RecordsOk(ls, small) && a !in small
    ensures RecordsOk(ls, small[a := n])
  {
  }

  lemma RecordsOkReuse(ls: seq<Large>, small: map<nat, nat>, k: nat, l: Large)
    requires RecordsOk(ls, small) && k < |ls| && l.record == ls[k].record
    ensures RecordsOk(ls[k := l], small)
  {
  }

  lemma RecordsOkPush(ls: seq<Large>, small: map<nat, nat>, l: Large)
    requires RecordsOk(ls, small) && l.record !in small
    ensures RecordsOk([l] + ls, small[l.record := SIZEOF_LARGE_NODE])
  {
    var ls' := [l] + ls;
    assert forall k :: 0 < k < |ls'| ==> ls'[k] == ls[k - 1];
  }

  /** A free record that takes a new large block. */
  lemma ReuseRecord(ls: seq<Large>, big: map<nat, nat>, k: nat, a: nat, n: nat)
    requires AddressesOk(ls, big) && k < |ls| && ls[k].address == 0 && a != 0 && a !in big && 0 !in big
    ensures AddressesOk(ls[k := ls[k].(address := a, size := n % UINT)], big[a := n])
  {
    var ls' := ls[k := ls[k].(address := a, size := n % UINT)];
    var big' := big[a := n];
    forall c | c in big' ensures exists j :: 0 <= j < |ls'| && ls'[j].address == c {
      if c == a {
        assert ls'[k].address == c;
      } else {
        var j :| 0 <= j < |ls| && ls[j].address == c;
        assert ls'[j].address == c;
      }
    }
  }

  lemma PushRecord(ls: seq<Large>, big: map<nat, nat>, record: nat, a: nat, n: nat)
    requires AddressesOk(ls, big) && a != 0 && a !in big
    ensures AddressesOk([Large(record, a, n % UINT)] + ls, big[a := n])
  {
    var ls' := [Large(record, a, n % UINT)] + ls;
    var big' := big[a := n];
    assert forall k :: 0 < k < |ls'| ==> ls'[k] == ls[k - 1];
    forall c | c in big' ensures exists j :: 0 <= j < |ls'| && ls'[j].address == c {
      if c == a {
        assert ls'[0].address == c;
      } else {
        var j :| 0 <= j < |ls| && ls[j].address == c;
        assert ls'[j + 1].address == c;
      }
    }
  }

  lemma AllocateSmall(w: World, size: nat, large: nat, page: nat)
    requires Inv(w) && Legal(w, Allocate(size, large, page)) && 0 < size <= MAX_SMALL
    ensures Inv(Apply(w, Allocate(size, large, page)))
  {
    MallocSmallKeeps(w.pool, w.small, size, page);
    MallocSmallKeepsBig(w, size, page);
    var (s, a) := MallocSmall(w.pool, size, page);
    if a != 0 {
      RecordsOkGrow(s.larges, w.small, a, size);
    }
  }

  lemma SmallOkFrame(s: Pool, small: map<nat, nat>, ls: seq<Large>)
    requires SmallOk(s, small)
    ensures SmallOk(s.(larges := ls), small)
  {
  }

  /** Record `k` describes a new large block. */
  lemma ReuseKeeps(w: World, k: nat, a: nat, n: nat)
    requires Inv(w) && k < |w.pool.larges| && w.pool.larges[k].address == 0
    requires a !in w.big && BigOk(w.pool.blocks, w.big[a := n]) && a > 0
    ensures Inv(World(w.pool.(larges := w.pool.larges[k := w.pool.larges[k].(address := a, size := n % UINT)]),
                      w.small, w.big[a := n]))
  {
    hide SmallOk, RecordsOk, AddressesOk;
    var ls := w.pool.larges[k := w.pool.larges[k].(address := a, size := n % UINT)];
    ReuseRecord(w.pool.larges, w.big, k, a, n);
    RecordsOkReuse(w.pool.larges, w.small, k, ls[k]);
    SmallOkFrame(w.pool, w.small, ls);
  }

  lemma AllocateReusing(w: World, size: nat, large: nat, page: nat)
    requires Inv(w) && Legal(w, Allocate(size, large, page)) && size > MAX_SMALL && large != 0
    requires FreeRecord(w.pool.larges, 0) < |w.pool.larges|
    ensures Inv(Apply(w, Allocate(size, large, page)))
  {
    hide SmallOk, RecordsOk, AddressesOk;
    FreeRecordFinds(w.pool.larges, 0);
    AddBig(w.pool.blocks, w.big, large, size);
    ReuseKeeps(w, FreeRecord(w.pool.larges, 0), large, size);
  }

  lemma AllocateRecording(w: World, size: nat, large: nat, page: nat)
    requires Inv(w) && Legal(w, Allocate(size, large, page)) && size > MAX_SMALL && large != 0
    requires FreeRecord(w.pool.larges, 0) >= |w.pool.larges|
    ensures Inv(Apply(w, Allocate(size, large, page)))
  {
    hide SmallOk, RecordsOk, AddressesOk, BigOk;
    var (s, record) := MallocSmall(w.pool, SIZEOF_LARGE_NODE, page);
    MallocSmallKeeps(w.pool, w.small, SIZEOF_LARGE_NODE, page);
    if record != 0 {
      var l := Large(record, large, size % UINT);
      var ls := [l] + w.pool.larges;
      var w' := World(s.(larges := ls), w.small[record := SIZEOF_LARGE_NODE], w.big[large := size]);
      AllocateRecordingBig(w, size, large, page);
      assert RecordsOk(ls, w'.small) by {
        RecordsOkPush(w.pool.larges, w.small, l);
      }
      assert AddressesOk(ls, w'.big) by {
        PushRecord(w.pool.larges, w.big, record, large, size);
      }
      SmallOkFrame(s, w'.small, ls);
      assert Inv(w');
    }
  }

  lemma AllocateRecordingBig(w: World, size: nat, large: nat, page: nat)
    requires Inv(w) && Legal(w, Allocate(size, large, page)) && size > MAX_SMALL && large != 0
    ensures large !in w.big
    ensures BigOk(MallocSmall(w.pool, SIZEOF_LARGE_NODE, page).0.blocks, w.big[large := size])
  {
    hide Counted, RecordsOk, Apart, Placed, AddressesOk;
    MallocSmallKeepsBig(w, SIZEOF_LARGE_NODE, page);
    MallocSmallClear(w.pool, SIZEOF_LARGE_NODE, page, large, size);
    AddBig(MallocSmall(w.pool, SIZEOF_LARGE_NODE, page).0.blocks, w.big, large, size);
  }

  lemma AllocateKeeps(w: World, size: nat, large: nat, page: nat)
    requires Inv(w) && Legal(w, Allocate(size, large, page))
    ensures Inv(Apply(w, Allocate(size, large, page)))
  {
    if size == 0 {
    } else if size <= MAX_SMALL {
      AllocateSmall(w, size, large, page);
    } else if large != 0 {
      FreeRecordFinds(w.pool.larges, 0);
      if FreeRecord(w.pool.larges, 0) < |w.pool.larges| {
        AllocateReusing(w, size, large, page);
      } else {
        AllocateRecording(w, size, large, page);
      }
    }
  }

  // ---------- release ----------

  /** Freeing a null pointer does nothing, even though it can match a free record. */
  lemma FreeNull(w: World)
    requires Inv(w)
    ensures Free(w.pool, 0) == w.pool
  {
    hide Placed, Counted, Apart, PagesApart, RecordsOk, BigOk;
    var ls := w.pool.larges;
    RecordOfFinds(ls, 0, 0);
    BlockOfFinds(w.pool.blocks, 0, 0);
    var k := RecordOf(ls, 0, 0);
    if k < |ls| {
      assert ls[k := ls[k].(address := 0, size := 0)] == ls;
    } else {
      assert forall i :: 0 <= i < |w.pool.blocks| ==> BlockOk(w.pool.blocks[i]);
    }
  }

  /** No large block starts where a small allocation does. */
  lemma SmallIsNotBig(w: World, p: nat)
    requires Inv(w) && p in w.small
    ensures p !in w.big && RecordOf(w.pool.larges, 0, p) == |w.pool.larges|
  {
    hide Counted, RecordsOk, PagesApart, Apart, Placed;
    var i := HomeIsUnique(w.pool, w.small, p);
    assert BlockOk(w.pool.blocks[i]);
    RecordOfFinds(w.pool.larges, 0, p);
  }

  lemma FreeSmallFinds(w: World, p: nat) returns (i: nat)
    requires Inv(w) && p in w.small
    ensures i < |w.pool.blocks| && Within(w.pool.blocks[i], p, w.small[p])
    ensures w.pool.blocks[i].base <= p < w.pool.blocks[i].end
    ensures forall j :: 0 <= j < |w.pool.blocks| && j != i ==> !Spans(w.pool.blocks[j], p)
    ensures Free(w.pool, p) == Release(w.pool, i)
    ensures w.pool.blocks[i].quote >= 1
  {
    SmallIsNotBig(w, p);
    i := HomeIsUnique(w.pool, w.small, p);
    BlockOfFinds(w.pool.blocks, 0, p);
    assert p in Inside(w.small, w.pool.blocks[i]);
  }

  lemma LiveInside(small: map<nat, nat>, b: Block, c: nat)
    requires c in small && b.base <= c < b.end
    ensures |Inside(small, b)| > 0
  {
    assert c in Inside(small, b);
  }

  lemma ReleaseShape(s: Pool, i: nat)
    requires i < |s.blocks| && 1 <= s.blocks[i].quote < UINT && s.blocks[0].base == s.page + SIZEOF_POOL
    ensures var bs, bs' := s.blocks, Release(s, i).blocks;
      && |bs'| == |bs|
      && (forall j :: 0 <= j < |bs| && j != i ==> bs'[j] == bs[j])
      && (if bs[i].quote == 1
          then bs'[i] == Block(bs[i].base, bs[i].end, bs[i].base + SIZEOF_SMALL_NODE, 0, 0)
          else bs'[i] == bs[i].(quote := bs[i].quote - 1))
    ensures Release(s, i) == s.(blocks := Release(s, i).blocks, current := if s.blocks[i].quote == 1 then 0 else s.current)
  {
  }

  /** Freeing a small allocation takes one reference from the block it lies in and
      touches no other block.  The block is rewound exactly when nothing else in it
      is live. */
  lemma FreeIsExact(w: World, p: nat) returns (i: nat)
    requires Inv(w) && p in w.small
    ensures i < |w.pool.blocks| && Within(w.pool.blocks[i], p, w.small[p])
    ensures forall j :: 0 <= j < |w.pool.blocks| && j != i ==> !Spans(w.pool.blocks[j], p)
    ensures w.pool.blocks[i].base <= p < w.pool.blocks[i].end
    ensures var bs, bs' := w.pool.blocks, Free(w.pool, p).blocks;
      && |bs'| == |bs|
      && (forall j :: 0 <= j < |bs| && j != i ==> bs'[j] == bs[j])
      && (if Inside(w.small - {p}, bs[i]) == {}
          then bs'[i] == Block(bs[i].base, bs[i].end, bs[i].base + SIZEOF_SMALL_NODE, 0, 0)
          else bs'[i] == bs[i].(quote := bs[i].quote - 1))
    ensures Free(w.pool, p) == w.pool.(blocks := Free(w.pool, p).blocks,
                                       current := if Inside(w.small - {p}, w.pool.blocks[i]) == {} then 0 else w.pool.current)
  {
    i := FreeSmallFinds(w, p);
    var b := w.pool.blocks[i];
    assert b.quote < UINT by {
      QuoteIsSmall(w.pool, w.small, i);
    }
    ReleaseShape(w.pool, i);
    InsideRemove(w.small, b, p);
    assert Inside(w.small - {p}, b) == {} <==> b.quote == 1;
  }

  /** A block that holds a record of the pool's own is never rewound by `freeMemory`. */
  lemma RecordBlockStays(w: World, p: nat, j: nat, r: nat)
    requires Inv(w) && Held(w, p)
    requires j < |w.pool.blocks| && r in Records(w.pool) && w.pool.blocks[j].base <= r < w.pool.blocks[j].end
    ensures |Free(w.pool, p).blocks| == |w.pool.blocks|
    ensures Free(w.pool, p).blocks[j].last == w.pool.blocks[j].last
  {
    if p in w.big {
      var k := FreeLargeIsExact(w, p);
    } else {
      var i := FreeIsExact(w, p);
      LiveInside(w.small - {p}, w.pool.blocks[j], r);
    }
  }

  lemma ReleaseSmallPlaced(w: World, p: nat)
    requires Inv(w) && p in w.small
    ensures Placed(Free(w.pool, p).blocks, w.small - {p})
  {
    var i := FreeIsExact(w, p);
    var bs, bs' := w.pool.blocks, Free(w.pool, p).blocks;
    var small' := w.small - {p};
    forall c | c in small' ensures exists j :: 0 <= j < |bs'| && Within(bs'[j], c, small'[c]) {
      var h := HomeIsUnique(w.pool, w.small, c);
      if h == i {
        LiveInside(small', bs[i], c);
      }
      assert Within(bs'[h], c, small'[c]);
    }
  }

  lemma ReleaseSmallCounted(w: World, p: nat)
    requires Inv(w) && p in w.small
    ensures Counted(Free(w.pool, p).blocks, w.small - {p})
  {
    hide Placed, Apart, RecordsOk, AddressesOk, BigOk, PagesApart, Free;
    var i := FreeIsExact(w, p);
    var bs, bs' := w.pool.blocks, Free(w.pool, p).blocks;
    forall j | 0 <= j < |bs'| ensures bs'[j].quote == |Inside(w.small - {p}, bs'[j])| {
      InsideRemove(w.small, bs[j], p);
      assert bs'[j].base == bs[j].base && bs'[j].end == bs[j].end;
      assert Inside(w.small - {p}, bs'[j]) == Inside(w.small - {p}, bs[j]);
      assert BlockOk(bs[j]) && (j != i ==> !Spans(bs[j], p));
    }
  }

  lemma ReleaseSmallBlocks(w: World, p: nat)
    requires Inv(w) && p in w.small
    ensures BlocksOk(Free(w.pool, p)) && PagesApart(Free(w.pool, p).blocks)
  {
    hide Counted, Placed, Apart, RecordsOk, AddressesOk, BigOk, Inside;
    var i := FreeIsExact(w, p);
    var bs, bs' := w.pool.blocks, Free(w.pool, p).blocks;
    assert forall j :: 0 <= j < |bs| ==> bs'[j].base == bs[j].base && bs'[j].end == bs[j].end;
    forall j | 0 <= j < |bs'| ensures BlockOk(bs'[j]) {
      assert BlockOk(bs[j]);
    }
  }

  lemma SamePagesBig(bs: seq<Block>, bs': seq<Block>, big: map<nat, nat>)
    requires BigOk(bs, big) && |bs'| == |bs| && forall j :: 0 <= j < |bs| ==> bs'[j].end == bs[j].end
    ensures BigOk(bs', big)
  {
    forall a | a in big ensures ClearOfPages(bs', a, big[a]) {
      assert ClearOfPages(bs, a, big[a]);
    }
  }

  lemma RecordsOkRemove(s: Pool, small: map<nat, nat>, p: nat)
    requires RecordsOk(s.larges, small) && p !in Records(s)
    ensures RecordsOk(s.larges, small - {p})
  {
    forall k | 0 <= k < |s.larges| ensures s.larges[k].record in small - {p} {
      assert s.larges[k].record in Records(s);
    }
  }

  lemma ReleaseSmallOk(w: World, p: nat)
    requires Inv(w) && p in w.small
    ensures SmallOk(Free(w.pool, p), w.small - {p})
  {
    hide Placed, Counted, PagesApart, BlocksOk;
    ReleaseSmallBlocks(w, p);
    ReleaseSmallPlaced(w, p);
    ReleaseSmallCounted(w, p);
  }

  lemma ReleaseSmallKeeps(w: World, p: nat)
    requires Inv(w) && p in w.small && p !in Records(w.pool)
    ensures Inv(Apply(w, Deallocate(p)))
  {
    hide SmallOk, RecordsOk, AddressesOk, BigOk;
    ReleaseSmallOk(w, p);
    var i := FreeIsExact(w, p);
    SamePagesBig(w.pool.blocks, Free(w.pool, p).blocks, w.big);
    RecordsOkRemove(w.pool, w.small, p);
    SmallIsNotBig(w, p);
    assert w.big - {p} == w.big;
  }

  lemma DropAddress(ls: seq<Large>, big: map<nat, nat>, k: nat)
    requires AddressesOk(ls, big) && k < |ls| && ls[k].address != 0 && 0 !in big
    ensures AddressesOk(ls[k := Large(ls[k].record, 0, 0)], big - {ls[k].address})
  {
    var ls' := ls[k := Large(ls[k].record, 0, 0)];
    forall c | c in big - {ls[k].address} ensures exists j :: 0 <= j < |ls'| && ls'[j].address == c {
      var j :| 0 <= j < |ls| && ls[j].address == c;
      assert ls'[j].address == c;
    }
  }

  lemma DropBig(bs: seq<Block>, big: map<nat, nat>, a: nat)
    requires BigOk(bs, big)
    ensures BigOk(bs, big - {a}) && 0 !in big
  {
  }

  /** Freeing a large block clears its own record and leaves every page alone. */
  lemma FreeLargeIsExact(w: World, p: nat) returns (k: nat)
    requires Inv(w) && p in w.big
    ensures k < |w.pool.larges| && w.pool.larges[k].address == p
    ensures Free(w.pool, p)
         == w.pool.(larges := w.pool.larges[k := Large(w.pool.larges[k].record, 0, 0)])
  {
    RecordOfFinds(w.pool.larges, 0, p);
    k := RecordOf(w.pool.larges, 0, p);
  }

  lemma ReleaseLargeKeeps(w: World, p: nat)
    requires Inv(w) && p in w.big
    ensures Inv(Apply(w, Deallocate(p)))
  {
    hide SmallOk, RecordsOk, AddressesOk, BigOk;
    var k := FreeLargeIsExact(w, p);
    var l := Large(w.pool.larges[k].record, 0, 0);
    if p in w.small {
      SmallIsNotBig(w, p);
    }
    assert w.small - {p} == w.small;
    DropBig(w.pool.blocks, w.big, p);
    assert p > 0;
    DropAddress(w.pool.larges, w.big, k);
    RecordsOkReuse(w.pool.larges, w.small, k, l);
    SmallOkFrame(w.pool, w.small, w.pool.larges[k := l]);
  }

  lemma ReleaseNullKeeps(w: World)
    requires Inv(w)
    ensures Apply(w, Deallocate(0)) == w
  {
    hide RecordsOk, AddressesOk, PagesApart, Counted, Apart;
    FreeNull(w);
    assert w.small - {0} == w.small && w.big - {0} == w.big;
  }

  lemma ResetKeeps(w: World)
    requires Inv(w)
    ensures Inv(Apply(w, ResetAll))
  {
    var s, s' := w.pool, Reset(w.pool);
    forall i | 0 <= i < |s'.blocks| ensures BlockOk(s'.blocks[i]) && Inside(map[], s'.blocks[i]) == {} {
      assert BlockOk(s.blocks[i]);
    }
  }

  // ---------- when an allocation fails ----------

  /** No page that a search would visit has room. */
  predicate NoRoom(s: Pool, size: nat) {
    forall i :: s.current <= i < |s.blocks| ==> !Fits(s.blocks[i], size)
  }

  /** None of the first five records is free. */
  predicate NoFreeRecord(ls: seq<Large>) {
    forall k :: 0 <= k < |ls| && k < 5 ==> ls[k].address != 0
  }

  lemma {:induction false} FreeRecordMisses(ls: seq<Large>, i: nat)
    requires i <= 4 && i <= |ls|
    ensures FreeRecord(ls, i) == |ls| <==> forall k :: i <= k < |ls| && k < 5 ==> ls[k].address != 0
    decreases |ls| - i
  {
    if i < |ls| {
      FreeRecordFinds(ls, i);
      if ls[i].address != 0 && i <= 3 {
        FreeRecordMisses(ls, i + 1);
      }
    }
  }

  /** A small request fails if and only if no page visited has room and the system gives
      no new one. */
  lemma MallocSmallFailsExactly(s: Pool, size: nat, page: nat)
    requires BlocksOk(s) && page + PAGE_SIZE <= ADDRESS_LIMIT
    ensures MallocSmall(s, size, page).1 == 0 <==> NoRoom(s, size) && page == 0
  {
    FirstFitFinds(s.blocks, s.current, size);
    var i := FirstFit(s.blocks, s.current, size);
    if i < |s.blocks| {
      FitsIsExact(s.blocks[i], size);
    } else if page != 0 {
      AlignPtrIsLeast(page + SIZEOF_SMALL_NODE);
    }
  }

  /** The pool refuses a request exactly when it is empty or the memory it needs is not
      to be had; a large block is handed out as the system gave it. */
  lemma MallocFailsExactly(w: World, size: nat, large: nat, page: nat)
    requires Inv(w) && Legal(w, Allocate(size, large, page))
    ensures Malloc(w.pool, size, large, page).1 == 0 <==>
      || size == 0
      || (size <= MAX_SMALL && NoRoom(w.pool, size) && page == 0)
      || (size > MAX_SMALL && (large == 0 ||
           (NoFreeRecord(w.pool.larges) && NoRoom(w.pool, SIZEOF_LARGE_NODE) && page == 0)))
    ensures size > MAX_SMALL ==> Malloc(w.pool, size, large, page).1 in {0, large}
  {
    hide RecordsOk, AddressesOk, BigOk, MallocSmall, NoRoom, Fits;
    MallocSmallFailsExactly(w.pool, size, page);
    MallocSmallFailsExactly(w.pool, SIZEOF_LARGE_NODE, page);
    FreeRecordFinds(w.pool.larges, 0);
    FreeRecordMisses(w.pool.larges, 0);
  }

  // ---------- every run ----------

  /** Every legal operation keeps the pool and the ledger in agreement. */
  lemma StepKeeps(w: World, op: Op)
    requires Inv(w) && Legal(w, op)
    ensures Inv(Apply(w, op))
  {
    hide SmallOk, RecordsOk, AddressesOk, BigOk, Apply;
    match op
    case Allocate(size, large, page) => AllocateKeeps(w, size, large, page);
    case Deallocate(p) =>
      if p == 0 {
        ReleaseNullKeeps(w);
      } else if p in w.big {
        ReleaseLargeKeeps(w, p);
      } else {
        ReleaseSmallKeeps(w, p);
      }
    case ResetAll => ResetKeeps(w);
  }

  lemma {:induction false} RunKeeps(w: World, ops: seq<Op>)
    requires Inv(w) && LegalRun(w, ops)
    ensures Inv(Run(w, ops))
    decreases |ops|
  {
    if ops != [] {
      StepKeeps(w, ops[0]);
      RunKeeps(Apply(w, ops[0]), ops[1..]);
    }
  }

  predicate Overlap(a: int, n: int, c: int, m: int) {
    a < c + m && c < a + n
  }

  predicate InUse(b: Block, a: nat, n: nat) {
    Within(b, a, n) && a + n <= b.last <= b.end
  }

  /** Live allocations are aligned and overlap neither each other nor a page's header. */
  ghost predicate Disjoint(w: World) {
    && (forall a :: (a in w.small || a in w.big) ==> a > 0 && a % ALIGNMENT == 0)
    && (forall a, c :: a in w.small && c in w.small && a != c ==> !Overlap(a, w.small[a], c, w.small[c]))
    && (forall a, c :: a in w.big && c in w.big && a != c ==> !Overlap(a, w.big[a], c, w.big[c]))
    && (forall a, c :: a in w.small && c in w.big ==> !Overlap(a, w.small[a], c, w.big[c]))
    && (forall a, i :: a in w.small && 0 <= i < |w.pool.blocks| ==>
          var b := w.pool.blocks[i];
          !Overlap(a, w.small[a], b.end - PAGE_SIZE, b.base + SIZEOF_SMALL_NODE - (b.end - PAGE_SIZE)))
  }

  /** Each small one lies in a page, behind the header and below what is in use of it;
      the records of the pool are such allocations too. */
  ghost predicate Located(w: World) {
    && (forall a :: a in w.small ==> exists i :: 0 <= i < |w.pool.blocks| && InUse(w.pool.blocks[i], a, w.small[a]))
    && (forall r :: r in Records(w.pool) ==> r in w.small && w.small[r] == SIZEOF_LARGE_NODE)
  }

  /** The test that compares a pointer difference with an unsigned size is exact, every
      block counts what is live in it, and its counter cannot overflow. */
  ghost predicate Exact(w: World) {
    forall i :: 0 <= i < |w.pool.blocks| ==>
      var b := w.pool.blocks[i];
      && b.quote == |Inside(w.small, b)| <= PAGE_SIZE / ALIGNMENT
      && forall n: nat :: Fits(b, n) <==> AlignPtr(b.last) + n <= b.end
  }

  /** What a caller of the pool relies on. */
  ghost predicate Safe(w: World) {
    Disjoint(w) && Located(w) && Exact(w)
  }

  lemma InvHeaders(w: World, a: nat, i: nat)
    requires Inv(w) && a in w.small && i < |w.pool.blocks|
    ensures var b := w.pool.blocks[i];
      !Overlap(a, w.small[a], b.end - PAGE_SIZE, b.base + SIZEOF_SMALL_NODE - (b.end - PAGE_SIZE))
  {
    var h := HomeIsUnique(w.pool, w.small, a);
    assert BlockOk(w.pool.blocks[h]) && BlockOk(w.pool.blocks[i]);
  }

  lemma InvInUse(w: World, a: nat)
    requires Inv(w) && a in w.small
    ensures exists i :: 0 <= i < |w.pool.blocks| && InUse(w.pool.blocks[i], a, w.small[a])
  {
    var h := HomeIsUnique(w.pool, w.small, a);
    assert BlockOk(w.pool.blocks[h]);
    assert InUse(w.pool.blocks[h], a, w.small[a]);
  }

  lemma InvSmallBig(w: World, a: nat, c: nat)
    requires Inv(w) && a in w.small && c in w.big
    ensures !Overlap(a, w.small[a], c, w.big[c])
  {
    var h := HomeIsUnique(w.pool, w.small, a);
    assert BlockOk(w.pool.blocks[h]);
  }

  lemma InvBlocks(w: World, i: nat)
    requires Inv(w) && i < |w.pool.blocks|
    ensures var b := w.pool.blocks[i]; b.quote == |Inside(w.small, b)| <= PAGE_SIZE / ALIGNMENT
    ensures forall n: nat :: Fits(w.pool.blocks[i], n) <==> AlignPtr(w.pool.blocks[i].last) + n <= w.pool.blocks[i].end
  {
    forall n: nat ensures Fits(w.pool.blocks[i], n) <==> AlignPtr(w.pool.blocks[i].last) + n <= w.pool.blocks[i].end {
      FitsIsExact(w.pool.blocks[i], n);
    }
    QuoteIsSmall(w.pool, w.small, i);
  }

  lemma InvAligned(w: World, a: nat)
    requires Inv(w) && (a in w.small || a in w.big)
    ensures a > 0 && a % ALIGNMENT == 0
  {
    if a in w.small {
      var h := HomeIsUnique(w.pool, w.small, a);
    }
  }

  lemma InvApart(w: World)
    requires Inv(w)
    ensures forall a, c :: a in w.small && c in w.small && a != c ==> !Overlap(a, w.small[a], c, w.small[c])
    ensures forall a, c :: a in w.big && c in w.big && a != c ==> !Overlap(a, w.big[a], c, w.big[c])
    ensures forall r :: r in Records(w.pool) ==> r in w.small && w.small[r] == SIZEOF_LARGE_NODE
  {
  }

  lemma InvDisjoint(w: World)
    requires Inv(w)
    ensures Disjoint(w)
  {
    hide Inv, Overlap, Records;
    InvApart(w);
    forall a | a in w.small || a in w.big ensures a > 0 && a % ALIGNMENT == 0 {
      InvAligned(w, a);
    }
    forall a, i | a in w.small && 0 <= i < |w.pool.blocks|
      ensures var b := w.pool.blocks[i];
        !Overlap(a, w.small[a], b.end - PAGE_SIZE, b.base + SIZEOF_SMALL_NODE - (b.end - PAGE_SIZE))
    {
      InvHeaders(w, a, i);
    }
    forall a, c | a in w.small && c in w.big ensures !Overlap(a, w.small[a], c, w.big[c]) {
      InvSmallBig(w, a, c);
    }
  }

  lemma InvIsSafe(w: World)
    requires Inv(w)
    ensures Safe(w)
  {
    hide Inv, Fits, InUse, Records, Inside, Disjoint;
    InvDisjoint(w);
    InvApart(w);
    forall a | a in w.small
      ensures exists i :: 0 <= i < |w.pool.blocks| && InUse(w.pool.blocks[i], a, w.small[a])
    {
      InvInUse(w, a);
    }
    forall i | 0 <= i < |w.pool.blocks|
      ensures var b := w.pool.blocks[i]; b.quote == |Inside(w.small, b)| <= PAGE_SIZE / ALIGNMENT
      ensures forall n: nat :: Fits(w.pool.blocks[i], n) <==> AlignPtr(w.pool.blocks[i].last) + n <= w.pool.blocks[i].end
    {
      InvBlocks(w, i);
    }
  }

  /** In every state reached by any run that frees only what it holds, the live
      allocations are disjoint and aligned, and every counter is right. */
  lemma PoolIsSafe(page: nat, ops: seq<Op>)
    requires page > 0 && page % ALIGNMENT == 0 && page + PAGE_SIZE <= ADDRESS_LIMIT
    requires LegalRun(Start(page), ops)
    ensures Safe(Run(Start(page), ops))
  {
    StartOk(page);
    RunKeeps(Start(page), ops);
    InvIsSafe(Run(Start(page), ops));
  }
}
