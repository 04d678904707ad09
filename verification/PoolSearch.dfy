/** How far a search for room can go from any state of the pool, in particular after a
 *  page has been rewound: the skip pointer then starts again at the first page.
 */
module PoolSearch {
  import opened Common
  import opened PoolSpec
  import opened PoolInvariant
  import opened PoolRuns
  import opened PoolSkip

  /** The pages that a search visits if none of them has room. */
  function Chain(s: Pool): int {
    |s.blocks| - s.current
  }

  function Max(a: int, b: int): int {
    if a < b then b else a
  }

  // ---------- after k new pages ----------

  /** The failures of page `j` once `k` pages have been added to `s`, if it has not been
      skipped: the tail fails no more than the pages behind it say. */
  function Count(s: Pool, j: nat, k: nat): nat {
    var n := |s.blocks|;
    if j + 1 < n then s.blocks[j].failed + k
    else (if j + 1 == n then s.blocks[j].failed else 0) + if j + 2 <= n + k then n + k - 2 - j else 0
  }

  /** The `k`-th new page, or one before it, has found page `j` to have failed enough. */
  predicate Done(s: Pool, k: nat, j: nat) {
    k >= 1 && s.current <= j && j + 3 <= |s.blocks| + k && Count(s, j, k - 1) >= 5
  }

  /** `s'` is `s` with `k` more pages: the current page is the one behind the last that
      is done, and from there on the failures are counted. */
  predicate After(s: Pool, s': Pool, k: nat) {
    && |s'.blocks| == |s.blocks| + k && s.current <= s'.current < |s'.blocks|
    && (forall j :: s'.current <= j < |s'.blocks| ==> !Done(s, k, j) && s'.blocks[j].failed == Count(s, j, k))
    && (s'.current > s.current ==> Done(s, k, s'.current - 1))
  }

  lemma {:induction false} SkipPastIs(bs: seq<Block>, i: nat, current: nat)
    requires current <= i < |bs|
    ensures var r := SkipPast(bs, i, current);
      && current <= r < |bs|
      && (r != current ==> i < r && bs[r - 1].failed >= 5)
      && (forall j :: i <= j < |bs| - 1 && r <= j ==> bs[j].failed < 5)
    decreases |bs| - i
  {
    if i + 1 < |bs| {
      SkipPastIs(bs, i + 1, if bs[i].failed >= 5 then i + 1 else current);
    }
  }

  lemma AfterNone(s: Pool)
    requires s.current < |s.blocks|
    ensures After(s, s, 0)
  {
  }

  lemma NewBlockAfter(s: Pool, s1: Pool, k: nat, size: nat, page: nat)
    requires After(s, s1, k) && page != 0
    ensures After(s, NewBlock(s1, size, page).0, k + 1)
  {
    var s2 := NewBlock(s1, size, page).0;
    SkipPastIs(s1.blocks, s1.current, s1.current);
    forall j | s2.current <= j < |s2.blocks|
      ensures !Done(s, k + 1, j) && s2.blocks[j].failed == Count(s, j, k + 1)
    {
      if j < |s1.blocks| {
        assert s1.blocks[j].failed == Count(s, j, k);
        assert j < |s1.blocks| - 1 ==> s1.blocks[j].failed < 5;
      }
    }
  }

  lemma MallocSmallAfter(s: Pool, s1: Pool, k: nat, size: nat, page: nat) returns (k': nat)
    requires After(s, s1, k)
    ensures k <= k' && After(s, MallocSmall(s1, size, page).0, k')
  {
    k' := k;
    if FirstFit(s1.blocks, s1.current, size) >= |s1.blocks| && page != 0 {
      NewBlockAfter(s, s1, k, size, page);
      k' := k + 1;
    }
  }

  lemma MallocAfter(s: Pool, s1: Pool, k: nat, size: nat, large: nat, page: nat) returns (k': nat)
    requires After(s, s1, k)
    ensures k <= k' && After(s, Malloc(s1, size, large, page).0, k')
  {
    hide MallocSmall;
    k' := k;
    if 0 < size <= MAX_SMALL {
      k' := MallocSmallAfter(s, s1, k, size, page);
    } else if size > MAX_SMALL && large != 0 && FreeRecord(s1.larges, 0) >= |s1.larges| {
      k' := MallocSmallAfter(s, s1, k, SIZEOF_LARGE_NODE, page);
    }
  }

  /** What matters here is the same in both. */
  predicate SameCounters(s: Pool, s': Pool) {
    |s'.blocks| == |s.blocks| && s'.current == s.current
    && forall j :: 0 <= j < |s.blocks| ==> s'.blocks[j].failed == s.blocks[j].failed
  }

  lemma DeallocateAfter(w: World, p: nat)
    requires Inv(w) && Legal(w, Deallocate(p)) && Quiet(w, Deallocate(p))
    ensures SameCounters(w.pool, Free(w.pool, p))
  {
    hide SmallOk, RecordsOk, AddressesOk, BigOk, Free;
    if p == 0 {
      FreeNull(w);
    } else if p in w.big {
      var k := FreeLargeIsExact(w, p);
    } else {
      var i := FreeIsExact(w, p);
      assert Spans(w.pool.blocks[i], p);
    }
  }

  lemma StepAfter(s: Pool, w: World, k: nat, op: Op) returns (k': nat)
    requires Inv(w) && Legal(w, op) && Quiet(w, op) && After(s, w.pool, k)
    ensures k <= k' && After(s, Apply(w, op).pool, k')
  {
    hide Inv, Malloc, Free;
    match op
    case Allocate(size, large, page) => k' := MallocAfter(s, w.pool, k, size, large, page);
    case Deallocate(p) =>
      DeallocateAfter(w, p);
      k' := k;
  }

  lemma {:induction false} RunAfter(s: Pool, w: World, k: nat, ops: seq<Op>) returns (k': nat)
    requires Inv(w) && LegalRun(w, ops) && QuietRun(w, ops) && After(s, w.pool, k)
    ensures After(s, Run(w, ops).pool, k')
    decreases |ops|
  {
    hide Inv, After;
    if ops == [] {
      k' := k;
    } else {
      var k1 := StepAfter(s, w, k, ops[0]);
      StepKeeps(w, ops[0]);
      k' := RunAfter(s, Apply(w, ops[0]), k1, ops[1..]);
    }
  }

  // ---------- seven pages ----------

  /** With `k` more pages a search visits at most seven. */
  predicate Short(s: Pool, k: nat) {
    Chain(s) + k <= LONGEST_CHAIN || exists j :: 0 <= j < |s.blocks| + k && |s.blocks| + k <= j + 8 && Done(s, k, j)
  }

  lemma ShortExactly(s: Pool, s': Pool, k: nat)
    requires After(s, s', k)
    ensures Chain(s') <= LONGEST_CHAIN <==> Short(s, k)
  {
    if Short(s, k) && Chain(s) + k > LONGEST_CHAIN {
      var j :| 0 <= j < |s.blocks| + k && |s.blocks| + k <= j + 8 && Done(s, k, j);
      assert j < s'.current;
    }
    if Chain(s') <= LONGEST_CHAIN && s'.current > s.current {
      assert Done(s, k, s'.current - 1);
    }
  }

  /** Six new pages are enough. */
  lemma SixPagesSettle(s: Pool, k: nat)
    requires k >= 6
    ensures Short(s, k)
  {
    if Chain(s) + k > LONGEST_CHAIN {
      assert |s.blocks| + k >= 8;
      assert Done(s, k, |s.blocks| + k - 8);
    }
  }

  /** From any state a run that rewinds no page visits at most seven pages in a search,
      or five more than a search would have visited at first. */
  lemma SearchIsBounded(w: World, ops: seq<Op>)
    requires Inv(w) && LegalRun(w, ops) && QuietRun(w, ops)
    ensures Chain(Run(w, ops).pool) <= Max(LONGEST_CHAIN, Chain(w.pool) + 5)
  {
    AfterNone(w.pool);
    var k := RunAfter(w.pool, w, 0, ops);
    ShortExactly(w.pool, Run(w, ops).pool, k);
    if k >= 6 {
      SixPagesSettle(w.pool, k);
    }
  }

  // ---------- growing ----------

  /** Pages that the system could give, one after the other. */
  predicate Supply(w: World, pages: seq<nat>) {
    && (forall k :: 0 <= k < |pages| ==> Fresh(w, pages[k], PAGE_SIZE))
    && (forall k, l :: 0 <= k < l < |pages| ==>
          pages[k] + PAGE_SIZE <= pages[l] || pages[l] + PAGE_SIZE <= pages[k])
  }

  lemma {:induction false} RunAppend(w: World, ops: seq<Op>, more: seq<Op>)
    requires LegalRun(w, ops) && LegalRun(Run(w, ops), more)
    ensures LegalRun(w, ops + more) && Run(w, ops + more) == Run(Run(w, ops), more)
    ensures QuietRun(w, ops) && QuietRun(Run(w, ops), more) ==> QuietRun(w, ops + more)
    decreases |ops|
  {
    hide Apply, Legal, Quiet;
    if ops == [] {
      assert ops + more == more;
    } else {
      assert (ops + more)[1..] == ops[1..] + more;
      RunAppend(Apply(w, ops[0]), ops[1..], more);
    }
  }

  lemma RunOne(w: World, op: Op)
    requires Legal(w, op)
    ensures LegalRun(w, [op]) && Run(w, [op]) == Apply(w, op) && (Quiet(w, op) ==> QuietRun(w, [op]))
  {
    assert [op][1..] == [];
    var w' := Apply(w, op);
    assert LegalRun(w', []) && Run(w', []) == w' && QuietRun(w', []);
  }

  /** The same pages with the same counters, and what else lies outside them. */
  predicate SamePages(w: World, w': World) {
    && SameCounters(w.pool, w'.pool) && w'.big == w.big && w'.pool.larges == w.pool.larges
    && forall j :: 0 <= j < |w.pool.blocks| ==> w'.pool.blocks[j].end == w.pool.blocks[j].end
  }

  function Roomy(s: Pool): set<nat> {
    set j: nat | j < |s.blocks| && s.current <= j && Fits(s.blocks[j], MAX_SMALL)
  }

  /** A whole page that is taken has no room any more. */
  lemma TakeWholePage(s: Pool)
    requires BlocksOk(s) && !NoRoom(s, MAX_SMALL)
    ensures var s' := MallocSmall(s, MAX_SMALL, 0).0;
      SameCounters(s, s') && s'.larges == s.larges && Roomy(s') < Roomy(s)
      && forall j :: 0 <= j < |s.blocks| ==> s'.blocks[j].end == s.blocks[j].end
  {
    FirstFitFinds(s.blocks, s.current, MAX_SMALL);
    var i := FirstFit(s.blocks, s.current, MAX_SMALL);
    var b := s.blocks[i];
    FitsIsExact(b, MAX_SMALL);
    NoMoreRoom(b);
    hide Fits, FirstFit, BlocksOk;
    assert MallocSmall(s, MAX_SMALL, 0).0 == s.(blocks := s.blocks[i := Take(b, MAX_SMALL)]);
    assert i in Roomy(s) && i !in Roomy(MallocSmall(s, MAX_SMALL, 0).0);
  }

  lemma NoMoreRoom(b: Block)
    requires BlockOk(b) && b.end <= b.base + PAGE_SIZE && Fits(b, MAX_SMALL)
    ensures !Fits(Take(b, MAX_SMALL), MAX_SMALL)
  {
    FitsIsExact(b, MAX_SMALL);
    var t := Take(b, MAX_SMALL);
    assert t.last == AlignPtr(b.last) + MAX_SMALL == b.end;
    FitsIsExact(t, MAX_SMALL);
  }

  lemma TakeWhole(w: World)
    requires Inv(w) && !NoRoom(w.pool, MAX_SMALL)
    ensures Legal(w, Allocate(MAX_SMALL, 0, 0))
    ensures var w' := Apply(w, Allocate(MAX_SMALL, 0, 0));
      Inv(w') && SamePages(w, w') && Roomy(w'.pool) < Roomy(w.pool)
  {
    assert BlocksOk(w.pool);
    hide Inv, MallocSmall, NoRoom, Roomy, BlocksOk;
    StepKeeps(w, Allocate(MAX_SMALL, 0, 0));
    TakeWholePage(w.pool);
  }

  /** Whole-page allocations until no page has room for one. */
  lemma {:induction false} FillUp(w: World) returns (ops: seq<Op>)
    requires Inv(w)
    ensures LegalRun(w, ops) && QuietRun(w, ops) && Inv(Run(w, ops)) && SamePages(w, Run(w, ops))
    ensures NoRoom(Run(w, ops).pool, MAX_SMALL)
    decreases |Roomy(w.pool)|
  {
    hide Inv, Legal, Apply, NoRoom;
    if NoRoom(w.pool, MAX_SMALL) {
      ops := [];
    } else {
      var op := Allocate(MAX_SMALL, 0, 0);
      TakeWhole(w);
      Smaller(Roomy(Apply(w, op).pool), Roomy(w.pool));
      var rest := FillUp(Apply(w, op));
      RunOne(w, op);
      RunAppend(w, [op], rest);
      ops := [op] + rest;
    }
  }

  lemma Smaller(a: set<nat>, b: set<nat>)
    requires a < b
    ensures |a| < |b|
  {
    var x :| x in b && x !in a;
    assert a <= b - {x};
    SubsetSize(a, b - {x});
  }

  lemma {:induction false} SubsetSize(a: set<nat>, b: set<nat>)
    requires a <= b
    ensures |a| <= |b|
  {
    assert b == a + (b - a);
  }

  /** The last page is at `page`, with one allocation in it. */
  predicate EndsAt(w: World, page: nat) {
    && |w.pool.blocks| > 0
    && page + SIZEOF_SMALL_NODE in w.small && w.small[page + SIZEOF_SMALL_NODE] == MAX_SMALL
    && var b := w.pool.blocks[|w.pool.blocks| - 1]; b.base == page && b.end == page + PAGE_SIZE && b.quote == 1
  }

  /** `w'` is `w` with one more page, at `page`. */
  predicate OneMore(w: World, w': World, page: nat) {
    && |w'.pool.blocks| == |w.pool.blocks| + 1 && EndsAt(w', page)
    && (forall j :: 0 <= j < |w.pool.blocks| ==> w'.pool.blocks[j].end == w.pool.blocks[j].end)
    && w'.big == w.big && w'.pool.larges == w.pool.larges
  }

  lemma AllocateNewPage(w: World, page: nat)
    requires w.pool.current < |w.pool.blocks| && NoRoom(w.pool, MAX_SMALL)
    requires page > 0 && page % ALIGNMENT == 0 && page + PAGE_SIZE <= ADDRESS_LIMIT
    ensures var w' := Apply(w, Allocate(MAX_SMALL, 0, page));
      w'.pool == NewBlock(w.pool, MAX_SMALL, page).0 && OneMore(w, w', page)
  {
    FirstFitFinds(w.pool.blocks, w.pool.current, MAX_SMALL);
    assert AlignPtr(page + SIZEOF_SMALL_NODE) == page + SIZEOF_SMALL_NODE by {
      AlignPtrIsLeast(page + SIZEOF_SMALL_NODE);
    }
    hide AlignPtr, SkipPast, Fits;
  }

  lemma NewPage(s: Pool, w: World, k: nat, page: nat)
    requires Inv(w) && NoRoom(w.pool, MAX_SMALL) && Fresh(w, page, PAGE_SIZE) && After(s, w.pool, k)
    ensures Legal(w, Allocate(MAX_SMALL, 0, page))
    ensures var w' := Apply(w, Allocate(MAX_SMALL, 0, page));
      Inv(w') && OneMore(w, w', page) && After(s, w'.pool, k + 1)
  {
    hide Inv, After, NewBlock, Apply, NoRoom, OneMore;
    CurrentOk(w);
    StepKeeps(w, Allocate(MAX_SMALL, 0, page));
    AllocateNewPage(w, page);
    NewBlockAfter(s, w.pool, k, MAX_SMALL, page);
  }

  /** Enough whole-page allocations bring in one more page. */
  lemma AddPage(s: Pool, w: World, k: nat, page: nat) returns (ops: seq<Op>)
    requires Inv(w) && Fresh(w, page, PAGE_SIZE) && After(s, w.pool, k)
    ensures LegalRun(w, ops) && QuietRun(w, ops)
    ensures Inv(Run(w, ops)) && OneMore(w, Run(w, ops), page) && After(s, Run(w, ops).pool, k + 1)
  {
    hide Inv, NoRoom, Legal, Apply;
    var fill := FillUp(w);
    var w1 := Run(w, fill);
    assert Fresh(w1, page, PAGE_SIZE);
    assert After(s, w1.pool, k);
    NewPage(s, w1, k, page);
    var op := Allocate(MAX_SMALL, 0, page);
    RunOne(w1, op);
    RunAppend(w, fill, [op]);
    ops := fill + [op];
  }

  lemma SupplyRest(w: World, w': World, pages: seq<nat>)
    requires Supply(w, pages) && pages != [] && OneMore(w, w', pages[0])
    ensures Supply(w', pages[1..])
  {
    var rest := pages[1..];
    forall k | 0 <= k < |rest| ensures Fresh(w', rest[k], PAGE_SIZE) {
      assert rest[k] == pages[k + 1];
      assert Fresh(w, pages[k + 1], PAGE_SIZE);
    }
    forall k, l | 0 <= k < l < |rest|
      ensures rest[k] + PAGE_SIZE <= rest[l] || rest[l] + PAGE_SIZE <= rest[k]
    {
      assert rest[k] == pages[k + 1] && rest[l] == pages[l + 1];
    }
  }

  /** A run that rewinds nothing can bring in any number of pages the system has. */
  lemma {:induction false} Grow(s: Pool, w: World, k: nat, n: nat, pages: seq<nat>) returns (ops: seq<Op>)
    requires Inv(w) && After(s, w.pool, k) && Supply(w, pages) && n <= |pages|
    ensures LegalRun(w, ops) && QuietRun(w, ops)
    ensures Inv(Run(w, ops)) && After(s, Run(w, ops).pool, k + n) && Supply(Run(w, ops), pages[n..])
    ensures n > 0 ==> EndsAt(Run(w, ops), pages[n - 1])
    ensures Run(w, ops).pool.larges == w.pool.larges && (n == 0 ==> ops == [])
    decreases n
  {
    hide Inv, Supply, OneMore, EndsAt, After;
    if n == 0 {
      ops := [];
      assert pages[0..] == pages;
    } else {
      var first := AddPage(s, w, k, FirstOf(w, pages));
      var w1 := Run(w, first);
      SupplyRest(w, w1, pages);
      OneMoreSays(w, w1, pages[0]);
      var rest := Grow(s, w1, k + 1, n - 1, pages[1..]);
      assert pages[1..][n - 1..] == pages[n..];
      RunAppend(w, first, rest);
      ops := first + rest;
      if n > 1 {
        assert pages[1..][n - 2] == pages[n - 1];
      } else {
        assert rest == [] && Run(w1, rest) == w1;
      }
    }
  }

  function FirstOf(w: World, pages: seq<nat>): (p: nat)
    requires pages != [] && Supply(w, pages)
    ensures p == pages[0] && Fresh(w, p, PAGE_SIZE)
  {
    pages[0]
  }

  lemma OneMoreSays(w: World, w': World, page: nat)
    requires OneMore(w, w', page)
    ensures w'.pool.larges == w.pool.larges && EndsAt(w', page)
  {
  }

  // ---------- exactly when searches stay short ----------

  /** The counters of the pages will move the skip pointer in time. */
  predicate Settled(s: Pool) {
    forall k: nat :: k <= 5 ==> Short(s, k)
  }

  predicate ShortAfter(w: World, ops: seq<Op>) {
    LegalRun(w, ops) && QuietRun(w, ops) ==> Chain(Run(w, ops).pool) <= LONGEST_CHAIN
  }

  /** From any state, no search in any run that rewinds no page visits more than seven
      pages if and only if the counters say so, provided the system has pages left. */
  lemma StaysShortExactly(w: World, pages: seq<nat>)
    requires Inv(w) && |pages| >= 5 && Supply(w, pages)
    ensures (forall ops :: ShortAfter(w, ops)) <==> Settled(w.pool)
  {
    hide Inv, Supply, Short, After;
    CurrentOk(w);
    AfterNone(w.pool);
    if Settled(w.pool) {
      forall ops ensures ShortAfter(w, ops) {
        if LegalRun(w, ops) && QuietRun(w, ops) {
          var k := RunAfter(w.pool, w, 0, ops);
          ShortExactly(w.pool, Run(w, ops).pool, k);
          if k >= 6 {
            SixPagesSettle(w.pool, k);
          }
        }
      }
    } else {
      var k: nat :| k <= 5 && !Short(w.pool, k);
      var ops := Grow(w.pool, w, 0, k, pages);
      ShortExactly(w.pool, Run(w, ops).pool, k);
      assert !ShortAfter(w, ops);
    }
  }

  lemma CurrentOk(w: World)
    requires Inv(w)
    ensures w.pool.current < |w.pool.blocks|
  {
  }

  predicate Reaches(w: World, ops: seq<Op>, chain: int) {
    LegalRun(w, ops) && QuietRun(w, ops) && Chain(Run(w, ops).pool) == chain
  }

  /** After a reset of `n` pages the searches of a run that rewinds nothing visit up to
      n + 5 pages, or seven if that is more, and some run gets there; so they stay
      within seven if and only if there are at most two pages. */
  lemma ResetStretches(w: World, pages: seq<nat>)
    requires Inv(w) && |pages| >= 6 && Supply(Apply(w, ResetAll), pages)
    ensures var w', most := Apply(w, ResetAll), Max(LONGEST_CHAIN, |w.pool.blocks| + 5);
      && (forall ops :: LegalRun(w', ops) && QuietRun(w', ops) ==> Chain(Run(w', ops).pool) <= most)
      && (exists ops :: Reaches(w', ops, most))
      && ((forall ops :: ShortAfter(w', ops)) <==> |w.pool.blocks| <= 2)
  {
    var w', n := Apply(w, ResetAll), |w.pool.blocks|;
    StepKeeps(w, ResetAll);
    CurrentOk(w');
    assert Chain(w'.pool) == n && forall j :: 0 <= j < n ==> w'.pool.blocks[j].failed == 0;
    hide Inv, Apply, Supply;
    forall ops | LegalRun(w', ops) && QuietRun(w', ops)
      ensures Chain(Run(w', ops).pool) <= Max(LONGEST_CHAIN, n + 5)
    {
      SearchIsBounded(w', ops);
    }
    AfterNone(w'.pool);
    var k := if n == 1 then 6 else 5;
    var ops := Grow(w'.pool, w', 0, k, pages);
    NoneDone(w'.pool, k);
    assert Reaches(w', ops, Max(LONGEST_CHAIN, n + 5));
    StaysShortExactly(w', pages);
    if n <= 2 {
      assert forall l: nat :: l <= 5 ==> Short(w'.pool, l);
    } else {
      NoneDone(w'.pool, 5);
      assert !Short(w'.pool, 5);
    }
  }

  /** With no failures to begin with, five new pages move nothing; six do not move a
      pool of one page. */
  lemma NoneDone(s: Pool, k: nat)
    requires s.current == 0 && |s.blocks| > 0 && (forall j :: 0 <= j < |s.blocks| ==> s.blocks[j].failed == 0)
    requires k <= 5 || (k == 6 && |s.blocks| == 1)
    ensures forall j :: 0 <= j ==> !Done(s, k, j)
  {
  }

  lemma RewoundPool(w: World, p: nat) returns (i: nat)
    requires Inv(w) && p in w.small && p !in Records(w.pool)
    ensures i < |w.pool.blocks| && Within(w.pool.blocks[i], p, w.small[p])
    ensures Legal(w, Deallocate(p)) && Inv(Apply(w, Deallocate(p)))
    ensures |Apply(w, Deallocate(p)).pool.blocks| == |w.pool.blocks|
    ensures Inside(w.small - {p}, w.pool.blocks[i]) == {} ==> var s := Apply(w, Deallocate(p)).pool;
      && |s.blocks| == |w.pool.blocks| && s.current == 0 && s.blocks[i].failed == 0
      && forall j :: 0 <= j < |s.blocks| && j != i ==> s.blocks[j].failed == w.pool.blocks[j].failed
  {
    i := FreeIsExact(w, p);
    StepKeeps(w, Deallocate(p));
  }

  /** Pool `s` is one in which nothing had been rewound before page `i` was. */
  predicate Rewinds(s: Pool, i: nat) {
    && i < |s.blocks| && s.current == 0 && s.blocks[i].failed == 0
    && forall j :: 0 <= j < |s.blocks| && j != i ==> s.blocks[j].failed == Failures(|s.blocks|, j)
  }

  lemma FreeRewinds(w: World, p: nat) returns (i: nat)
    requires Inv(w) && Aged(w.pool) && p in w.small && p !in Records(w.pool)
    ensures i < |w.pool.blocks| && Within(w.pool.blocks[i], p, w.small[p])
    ensures Inv(Apply(w, Deallocate(p))) && |Apply(w, Deallocate(p)).pool.blocks| == |w.pool.blocks|
    ensures Inside(w.small - {p}, w.pool.blocks[i]) == {} ==> Rewinds(Apply(w, Deallocate(p)).pool, i)
  {
    hide Inv, Apply, Records, Inside, Within;
    i := RewoundPool(w, p);
  }

  /** When that has happened to page `i` out of `n`, the next search visits all pages,
      and searches stay within seven from there on if and only if there are at most
      seven and `i` is one of the last two. */
  lemma RewoundStretches(w: World, i: nat, pages: seq<nat>)
    requires Inv(w) && Rewinds(w.pool, i) && |pages| >= 5 && Supply(w, pages)
    ensures Chain(w.pool) == |w.pool.blocks|
    ensures forall ops :: LegalRun(w, ops) && QuietRun(w, ops) ==>
      Chain(Run(w, ops).pool) <= Max(LONGEST_CHAIN, |w.pool.blocks| + 5)
    ensures (forall ops :: ShortAfter(w, ops)) <==> |w.pool.blocks| <= LONGEST_CHAIN && i + 2 >= |w.pool.blocks|
  {
    hide Inv, Supply, Settled, ShortAfter;
    forall ops | LegalRun(w, ops) && QuietRun(w, ops)
      ensures Chain(Run(w, ops).pool) <= Max(LONGEST_CHAIN, |w.pool.blocks| + 5)
    {
      SearchIsBounded(w, ops);
    }
    StaysShortExactly(w, pages);
    RewoundSettles(w.pool, i);
  }

  lemma RewoundSettles(s: Pool, i: nat)
    requires Rewinds(s, i)
    ensures Settled(s) <==> |s.blocks| <= LONGEST_CHAIN && i + 2 >= |s.blocks|
  {
    var n := |s.blocks|;
    if n > LONGEST_CHAIN {
      assert !Short(s, 0);
    } else if i + 2 >= n {
      forall k: nat | k <= 5 ensures Short(s, k) {
        if n + k > LONGEST_CHAIN {
          assert Done(s, k, n + k - 8);
        }
      }
    } else {
      var k := i + 8 - n;
      assert forall j :: n + k <= j + 8 ==> !Done(s, k, j);
      assert !Short(s, k);
    }
  }

  // ---------- runs in which searches are long ----------

  /** Pages at fixed addresses, for a pool that starts at 4096. */
  function PageAt(k: nat): nat {
    PAGE_SIZE * (k + 2)
  }

  lemma StartSupply(n: nat) returns (pages: seq<nat>)
    requires n <= 100
    ensures |pages| == n && Supply(Start(PAGE_SIZE), pages) && Inv(Start(PAGE_SIZE)) && Aged(Start(PAGE_SIZE).pool)
  {
    pages := seq(n, k requires 0 <= k < n => PageAt(k));
    StartOk(PAGE_SIZE);
  }

  lemma SupplyReset(w: World, pages: seq<nat>)
    requires Supply(w, pages)
    ensures Supply(Apply(w, ResetAll), pages)
  {
    var w' := Apply(w, ResetAll);
    forall k | 0 <= k < |pages| ensures Fresh(w', pages[k], PAGE_SIZE) {
      assert Fresh(w, pages[k], PAGE_SIZE);
    }
  }

  /** A reset of three pages lets a search visit eight. */
  lemma ResetLengthensSearch()
    ensures exists ops :: LegalRun(Start(PAGE_SIZE), ops) && Chain(Run(Start(PAGE_SIZE), ops).pool) == 8
  {
    var w := Start(PAGE_SIZE);
    var pages := StartSupply(8);
    hide Inv, Supply, Apply;
    AfterNone(w.pool);
    var grow := Grow(w.pool, w, 0, 2, pages);
    var w1 := Run(w, grow);
    SupplyReset(w1, pages[2..]);
    ResetStretches(w1, pages[2..]);
    var w2 := Apply(w1, ResetAll);
    var rest :| Reaches(w2, rest, 8);
    RunOne(w1, ResetAll);
    RunAppend(w, grow, [ResetAll]);
    RunAppend(w, grow + [ResetAll], rest);
    assert Chain(Run(w, grow + [ResetAll] + rest).pool) == 8;
  }

  predicate LengthensTo(w: World, ops: seq<Op>, p: nat, chain: int) {
    LegalRun(w, ops + [Deallocate(p)]) && Chain(Run(w, ops + [Deallocate(p)]).pool) == chain
  }

  /** So does a free that empties one of eight pages. */
  lemma FreeLengthensSearch()
    ensures exists ops, p :: QuietRun(Start(PAGE_SIZE), ops) && LengthensTo(Start(PAGE_SIZE), ops, p, 8)
  {
    var w := Start(PAGE_SIZE);
    var pages := StartSupply(7);
    hide Inv, Supply, Apply;
    AfterNone(w.pool);
    var grow := Grow(w.pool, w, 0, 7, pages);
    var w1 := Run(w, grow);
    var p := pages[6] + SIZEOF_SMALL_NODE;
    LastIsAlone(w1, pages[6]);
    RunOne(w1, Deallocate(p));
    RunAppend(w, grow, [Deallocate(p)]);
    assert LengthensTo(w, grow, p, 8);
  }

  lemma LastIsAlone(w: World, page: nat)
    requires Inv(w) && EndsAt(w, page) && w.pool.larges == []
    ensures Legal(w, Deallocate(page + SIZEOF_SMALL_NODE))
    ensures Chain(Apply(w, Deallocate(page + SIZEOF_SMALL_NODE)).pool) == |w.pool.blocks|
  {
    var p := page + SIZEOF_SMALL_NODE;
    var i := RewoundPool(w, p);
    var b := w.pool.blocks[|w.pool.blocks| - 1];
    assert Counted(w.pool.blocks, w.small);
    assert |Inside(w.small, b)| == 1 && p in Inside(w.small, b);
    InsideRemove(w.small, b, p);
    var h := HomeIsUnique(w.pool, w.small, p);
    assert Spans(b, p);
  }
}
