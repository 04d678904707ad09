/** The skip pointer of the pool: how far a search for room can go. */
module PoolSkip {
  import opened Common
  import opened PoolSpec
  import opened PoolInvariant
  import opened PoolRuns

  const LONGEST_CHAIN: nat := 7

  /** The failures of block `j` out of `n`: every new page after the next one adds
      one, until the sixth moves `current_` past the block. */
  function Failures(n: nat, j: nat): nat {
    if j + 2 >= n then 0 else if n - 2 - j > 6 then 6 else n - 2 - j
  }

  predicate Aged(s: Pool) {
    && |s.blocks| > 0
    && s.current == (if |s.blocks| > LONGEST_CHAIN then |s.blocks| - LONGEST_CHAIN else 0)
    && forall j :: 0 <= j < |s.blocks| ==> s.blocks[j].failed == Failures(|s.blocks|, j)
  }

  /** No block is rewound: not by a reset, and not by freeing the last thing in it. */
  predicate Quiet(w: World, op: Op) {
    match op
    case Allocate(_, _, _) => true
    case Deallocate(p) =>
      p in w.small ==> forall i :: 0 <= i < |w.pool.blocks| && Spans(w.pool.blocks[i], p) ==>
        Inside(w.small - {p}, w.pool.blocks[i]) != {}
    case ResetAll => false
  }

  predicate QuietRun(w: World, ops: seq<Op>)
    decreases |ops|
  {
    ops == [] || (Quiet(w, ops[0]) && QuietRun(Apply(w, ops[0]), ops[1..]))
  }

  lemma {:induction false} SkipPastNone(bs: seq<Block>, i: nat, current: nat)
    requires forall j :: i <= j < |bs| - 1 ==> bs[j].failed < 5
    ensures SkipPast(bs, i, current) == current
    decreases |bs| - i
  {
    if i + 1 < |bs| {
      SkipPastNone(bs, i + 1, current);
    }
  }

  lemma NewBlockAges(s: Pool, size: nat, page: nat)
    requires Aged(s)
    ensures Aged(NewBlock(s, size, page).0)
  {
    var n := |s.blocks|;
    if page != 0 {
      if n >= LONGEST_CHAIN {
        assert s.blocks[s.current].failed == 5;
        SkipPastNone(s.blocks, s.current + 1, s.current + 1);
      } else {
        SkipPastNone(s.blocks, s.current, s.current);
      }
    }
  }

  lemma MallocSmallAges(s: Pool, size: nat, page: nat)
    requires Aged(s)
    ensures Aged(MallocSmall(s, size, page).0)
  {
    NewBlockAges(s, size, page);
  }

  lemma StepAges(w: World, op: Op)
    requires Inv(w) && Legal(w, op) && Quiet(w, op) && Aged(w.pool)
    ensures Aged(Apply(w, op).pool)
  {
    hide SmallOk, RecordsOk, AddressesOk, BigOk;
    match op
    case Allocate(size, large, page) =>
      MallocSmallAges(w.pool, size, page);
      MallocSmallAges(w.pool, SIZEOF_LARGE_NODE, page);
    case Deallocate(p) =>
      if p == 0 {
        FreeNull(w);
      } else if p in w.big {
        var k := FreeLargeIsExact(w, p);
      } else {
        var i := FreeIsExact(w, p);
        assert Spans(w.pool.blocks[i], p);
      }
  }

  lemma {:induction false} RunAges(w: World, ops: seq<Op>)
    requires Inv(w) && LegalRun(w, ops) && QuietRun(w, ops) && Aged(w.pool)
    ensures Aged(Run(w, ops).pool)
    decreases |ops|
  {
    if ops != [] {
      StepAges(w, ops[0]);
      StepKeeps(w, ops[0]);
      RunAges(Apply(w, ops[0]), ops[1..]);
    }
  }

  /** However many blocks a quiet run has made, a search for room looks at no more
      than seven, and every block it skips has failed exactly six times. */
  lemma SearchIsShort(page: nat, ops: seq<Op>)
    requires page > 0 && page % ALIGNMENT == 0 && page + PAGE_SIZE <= ADDRESS_LIMIT
    requires LegalRun(Start(page), ops) && QuietRun(Start(page), ops)
    ensures var s := Run(Start(page), ops).pool;
      && s.current < |s.blocks| <= s.current + LONGEST_CHAIN
      && forall j :: 0 <= j < s.current ==> s.blocks[j].failed == 6
  {
    StartOk(page);
    RunAges(Start(page), ops);
  }
}
