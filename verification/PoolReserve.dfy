/** What becomes of the cleanup nodes that clear keeps in reserve: allocating goes on until a block lies
    over them. */
module PoolReserve {
  import opened PoolSizes
  import opened PoolModel
  import opened PoolRuns
  import opened PoolTheorems

  /** n requests for CLEANUP bytes each. */
  function Pallocs(l: Live, n: nat, issued: nat): Live
    requires |l.pool.slots| == SLOTS
    decreases n
  {
    if n == 0 then l
    else
      var (l', issued') := Step(l, AllocOp(CLEANUP), issued);
      Pallocs(l', n - 1, issued')
  }

  /** Some block handed out overlaps the cleanup node at the given address. */
  ghost predicate Overlapped(l: Live, at: Addr) {
    exists y :: 0 <= y < |l.small| && !Apart(Grant(at, CLEANUP, CLEANUP), l.small[y])
  }

  lemma {:induction false} ChainNotNegative(c: seq<Node>)
    ensures ChainSum(c, Available) >= 0
  {
    if c != [] {
      ChainNotNegative(c[1..]);
    }
  }

  lemma {:induction false} SumNotNegative(s: Slots)
    ensures Sum(s, Available) >= 0
  {
    if s != [] {
      ChainNotNegative(s[0]);
      SumNotNegative(s[1..]);
    }
  }

  /** As long as some memnode has room, a small request is taken from the first that has. */
  lemma SmallRequest(l: Live, issued: nat, i: int, j: int) returns (m: int, n: int)
    requires |l.pool.slots| == SLOTS && At(l.pool.slots, i, j) && l.pool.slots[i][j].sizeAvail >= CLEANUP
    ensures At(l.pool.slots, m, n) && l.pool.slots[m][n].sizeAvail >= CLEANUP
    ensures var node := l.pool.slots[m][n];
            Step(l, AllocOp(CLEANUP), issued) ==
            (Live(l.pool.(slots := CarveAt(l.pool.slots, m, n, CLEANUP)),
                  l.small + [Grant(Addr(node.region, node.firstAvail), CLEANUP, CLEANUP)], l.large), issued)
  {
    assert AlignAllocation(CLEANUP) == CLEANUP && Pages(CLEANUP) == 1;
    var found := FirstFit(l.pool.slots, 0, CLEANUP);
    assert found.Some?;
    m, n := found.value.0, found.value.1;
  }

  /** The memnode at (i, j) is used up to the cleanup node or less far. */
  ghost predicate Before(l: Live, i: int, j: int, at: Addr) {
    && |l.pool.slots| == SLOTS && At(l.pool.slots, i, j) && l.pool.slots[i][j].region == at.region
    && l.pool.slots[i][j].firstAvail <= at.offset
    && at.offset + CLEANUP <= l.pool.slots[i][j].firstAvail + l.pool.slots[i][j].sizeAvail
  }

  lemma {:induction false} EventuallyOverlapped(l: Live, issued: nat, i: int, j: int, at: Addr) returns (n: nat)
    requires Before(l, i, j, at)
    ensures Overlapped(Pallocs(l, n, issued), at) && Pallocs(l, n, issued).pool.reserve == l.pool.reserve
    decreases Sum(l.pool.slots, Available)
  {
    var s := l.pool.slots;
    var k, m := SmallRequest(l, issued, i, j);
    var l' := Step(l, AllocOp(CLEANUP), issued).0;
    CarveEntries(s, k, m, CLEANUP, i, j);
    if k == i && m == j && s[i][j].firstAvail + CLEANUP > at.offset {
      var g := l'.small[|l.small|];
      assert g == Grant(Addr(at.region, s[i][j].firstAvail), CLEANUP, CLEANUP);
      assert !Apart(Grant(at, CLEANUP, CLEANUP), g);
      n := 1;
      assert Pallocs(l', 0, issued) == l';
    } else {
      CarveSum(s, k, m, CLEANUP, Available);
      SumNotNegative(s);
      SumNotNegative(l'.pool.slots);
      assert Before(l', i, j, at);
      n := EventuallyOverlapped(l', issued, i, j, at);
      n := n + 1;
    }
  }

  /** Whatever pool with a cleanup node is cleared, and whichever node it is: it stays in reserve, and
      some number of requests later a block handed out lies over it. */
  lemma ReserveIsOverwritten(l: Live, issued: nat, at: Addr) returns (n: nat)
    requires PoolOk(l, issued) && Anchored(l) && IsCleanupNode(l.pool, at)
    ensures var l' := Pallocs(Step(l, ClearOp, issued).0, n, issued);
            at in l'.pool.reserve && Overlapped(l', at)
  {
    var i, j := ReserveLiesAvailable(l, issued, at);
    n := EventuallyOverlapped(Step(l, ClearOp, issued).0, issued, i, j, at);
  }
}
