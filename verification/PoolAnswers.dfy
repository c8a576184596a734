/** What an allocation answers, said of the memnodes the pool has and without the search: of all memnodes
    with room, the first one gives the block, and only when there is none is a new one made. Constants are
    written out, for an LP64 machine with pages of 4096 bytes. */
module PoolAnswers {
  import opened Basics
  import opened PoolSizes
  import opened PoolModel
  import opened PoolRuns
  import PoolTheorems

  // ------------------------------------------------------------ sizes

  /** a bytes are set aside for a request of size bytes: whole words, 16 at least. */
  predicate Rounded(size: nat, a: nat) {
    && size <= a < 0x1_0000_0000_0000_0000 && a % 8 == 0 && a >= 16
    && (a == 16 || a < size + 8)
  }

  /** n pages hold a bytes and a memnode's header of 48 bytes, with something to spare; the sum is a 64-bit
      one. */
  predicate PagesFor(a: nat, n: nat) {
    var sum := (a + 48) % 0x1_0000_0000_0000_0000;
    n > 0 && 4096 * (n - 1) <= sum < 4096 * n
  }

  lemma RoundedIs(size: nat, a: nat)
    requires size < 0x1_0000_0000_0000_0000
    ensures Rounded(size, a) <==> AlignAllocation(size) == a != 0
  {
  }

  lemma PagesForIs(a: nat, n: nat)
    ensures PagesFor(a, n) <==> Pages(a) == n
  {
  }

  // ------------------------------------------------------------ the first memnode with room

  /** Memnode j of slot i, which is not too small a slot, has a bytes available. */
  predicate Room(s: Slots, n: nat, a: nat, i: int, j: int) {
    n - 1 <= i && At(s, i, j) && s[i][j].sizeAvail >= a
  }

  predicate Before(i: int, j: int, k: int, l: int) {
    i < k || (i == k && j < l)
  }

  /** No memnode with room lies in an earlier slot or earlier in the chain. */
  ghost predicate FirstRoom(s: Slots, n: nat, a: nat, i: int, j: int) {
    Room(s, n, a, i, j) && forall k, l | Room(s, n, a, k, l) :: !Before(k, l, i, j)
  }

  /** The memnodes are where they were, and only the one at (i, j) has changed: a bytes of it are used
      up. */
  ghost predicate OneCarved(s: Slots, t: Slots, i: int, j: int, a: nat) {
    && |t| == |s| && (forall k | 0 <= k < |s| :: |t[k]| == |s[k]|)
    && (forall k, l | At(s, k, l) && (k != i || l != j) :: t[k][l] == s[k][l])
    && At(s, i, j) && t[i][j].firstAvail == s[i][j].firstAvail + a && t[i][j].sizeAvail == s[i][j].sizeAvail - a
    && t[i][j].region == s[i][j].region && t[i][j].begin == s[i][j].begin
    && t[i][j].size == s[i][j].size && t[i][j].deallocSize == s[i][j].deallocSize
  }

  /** A memnode has been put in front of the chain of slot i, and nothing else has changed. */
  ghost predicate OneNew(s: Slots, t: Slots, i: int) {
    && |t| == |s| && 0 <= i < |s| && |t[i]| == |s[i]| + 1
    && (forall k | 0 <= k < |s| && k != i :: t[k] == s[k])
    && forall l | 0 <= l < |s[i]| :: t[i][l + 1] == s[i][l]
  }

  /** The memnode of n pages in a region of its own, with a bytes taken from its start; the sums are 64-bit
      ones. */
  predicate NewNode(m: Node, region: nat, n: nat, a: nat) {
    && m.region == region && m.begin == 48 && m.size == 4096 * n - 48 && m.deallocSize == 4096 * n
    && m.firstAvail == (48 + a) % 0x1_0000_0000_0000_0000
    && m.sizeAvail == (4096 * n - 48 - a) % 0x1_0000_0000_0000_0000
  }

  lemma RoomHasFirst(s: Slots, n: nat, a: nat, i: int, j: int)
    requires Room(s, n, a, i, j)
    ensures exists k, l :: FirstRoom(s, n, a, k, l)
    decreases i, j
  {
    if k, l :| Room(s, n, a, k, l) && Before(k, l, i, j) {
      RoomHasFirst(s, n, a, k, l);
    } else {
      assert FirstRoom(s, n, a, i, j);
    }
  }

  lemma SearchFinds(s: Slots, n: nat, a: nat, i: int, j: int)
    requires 0 < n <= |s| && FirstRoom(s, n, a, i, j)
    ensures FirstFit(s, n - 1, a) == Some((i, j))
  {
    FoundHasRoom(s, n, a);
  }

  lemma FoundHasRoom(s: Slots, n: nat, a: nat)
    requires 0 < n <= |s|
    ensures var f := FirstFit(s, n - 1, a);
            f.Some? ==> Room(s, n, a, f.value.0, f.value.1)
  {
  }

  // ------------------------------------------------------------ palloc

  /** With room in some memnode, nothing is issued: the block starts where the first such memnode has its
      first free byte, and only that memnode changes. */
  lemma TakesFirstRoom(p: Pool, size: nat, a: nat, n: nat, issued: nat, i: int, j: int)
    requires |p.slots| == 20 && size < 0x1_0000_0000_0000_0000
    requires Rounded(size, a) && PagesFor(a, n) && n <= 20 && FirstRoom(p.slots, n, a, i, j)
    ensures var r := Alloc(p, size, issued);
            && r.issued == issued
            && r.mem == Some(Addr(p.slots[i][j].region, p.slots[i][j].firstAvail))
            && OneCarved(p.slots, r.pool.slots, i, j, a)
            && r.pool.home == p.home && r.pool.cleanups == p.cleanups && r.pool.reserve == p.reserve
  {
    RoundedIs(size, a);
    PagesForIs(a, n);
    SearchFinds(p.slots, n, a, i, j);
  }

  /** Without room anywhere, one region is issued, for a memnode of as many pages as the request needs, and
      the block starts behind its header. */
  lemma MakesRoom(p: Pool, size: nat, a: nat, n: nat, issued: nat)
    requires |p.slots| == 20 && size < 0x1_0000_0000_0000_0000
    requires Rounded(size, a) && PagesFor(a, n) && n <= 20 && forall i, j :: !Room(p.slots, n, a, i, j)
    ensures var r := Alloc(p, size, issued);
            && r.issued == issued + 1
            && r.mem == Some(Addr(issued, 48))
            && OneNew(p.slots, r.pool.slots, n - 1) && NewNode(r.pool.slots[n - 1][0], issued, n, a)
            && r.pool.home == p.home && r.pool.cleanups == p.cleanups && r.pool.reserve == p.reserve
  {
    RoundedIs(size, a);
    PagesForIs(a, n);
    FoundHasRoom(p.slots, n, a);
  }

  /** A request that has a slot takes a new region exactly when no memnode from its slot on has room. */
  lemma IssuesExactly(p: Pool, size: nat, a: nat, n: nat, issued: nat)
    requires |p.slots| == 20 && size < 0x1_0000_0000_0000_0000
    requires Rounded(size, a) && PagesFor(a, n) && n <= 20
    ensures Alloc(p, size, issued).issued == issued <==> exists i, j :: Room(p.slots, n, a, i, j)
    ensures Alloc(p, size, issued).issued == issued + 1 <==> forall i, j :: !Room(p.slots, n, a, i, j)
  {
    if i, j :| Room(p.slots, n, a, i, j) {
      RoomHasFirst(p.slots, n, a, i, j);
      var k, l :| FirstRoom(p.slots, n, a, k, l);
      TakesFirstRoom(p, size, a, n, issued, k, l);
    } else {
      MakesRoom(p, size, a, n, issued);
    }
  }

  /** The last seven sizes fail, and leave everything as it is. */
  lemma FailsExactly(p: Pool, size: nat, issued: nat)
    requires |p.slots| == 20 && size < 0x1_0000_0000_0000_0000
    ensures Alloc(p, size, issued).mem.None? <==> size > 0x1_0000_0000_0000_0000 - 8
    ensures Alloc(p, size, issued).mem.None? ==> Alloc(p, size, issued) == Result(p, None, issued)
  {
    AlignedExactly(size);
  }

  /** A request of 81872 to 86015 bytes gets a region that no memnode of the pool knows of, and a larger one
      a region of its own, which the pool registers to be released. */
  lemma BeyondSlots(p: Pool, size: nat, a: nat, issued: nat)
    requires |p.slots| == 20 && size < 0x1_0000_0000_0000_0000 && Rounded(size, a)
    ensures 81872 <= a < 85968 ==> Alloc(p, size, issued) == Result(p, Some(Addr(issued, 48)), issued + 1)
    ensures 85968 <= a < 0x1_0000_0000_0000_0000 - 48 ==>
              var r, q := Alloc(p, size, issued), Register(p, Release(issued), issued + 1);
              r.mem == Some(Addr(issued, 0)) && r.pool == q.pool && r.issued == q.issued
  {
    RoundedIs(size, a);
  }

  /** A cleanup goes on top of the others. Its node is the first of the reserve or, without one, the 24 bytes
      that palloc gives. */
  lemma RegisterAnswers(p: Pool, task: Task, issued: nat)
    requires |p.slots| == 20
    ensures var r := Register(p, task, issued);
            && r.mem.Some? && r.pool.home == p.home
            && |r.pool.cleanups| == |p.cleanups| + 1 && r.pool.cleanups[0] == Cleanup(r.mem.value, task)
            && (forall x | 0 <= x < |p.cleanups| :: r.pool.cleanups[x + 1] == p.cleanups[x])
            && (p.reserve != [] ==>
                  && [r.mem.value] + r.pool.reserve == p.reserve
                  && r.pool.slots == p.slots && r.issued == issued)
            && (p.reserve == [] ==>
                  var q := Alloc(p, 24, issued);
                  && r.mem == q.mem && r.pool.reserve == []
                  && r.pool.slots == q.pool.slots && r.issued == q.issued)
  {
  }

  // ------------------------------------------------------------ what the search misses

  /** Some memnode of the pool, in whatever slot, has a bytes available. */
  ghost predicate SomeRoom(p: Pool, a: nat) {
    exists i, j :: At(p.slots, i, j) && p.slots[i][j].sizeAvail >= a
  }

  /** Memnode j of slot i has just a bytes, all of them available. */
  predicate UnusedOf(s: Slots, i: int, j: int, a: nat) {
    At(s, i, j) && s[i][j].sizeAvail == s[i][j].size == a
  }

  /** palloc takes a new region although some memnode of the pool has room exactly when no memnode from the
      request's slot on has room, the request and the header fill whole pages, and a memnode of the next
      smaller slot is wholly unused and of just the size. */
  lemma MissedExactly(p: Pool, size: nat, a: nat, n: nat, issued: nat)
    requires NodesOk(p.slots, issued) && size < 0x1_0000_0000_0000_0000 - 64
    requires Rounded(size, a) && PagesFor(a, n) && n <= 20
    ensures Alloc(p, size, issued).issued > issued && SomeRoom(p, a) <==>
            && (forall i, j :: !Room(p.slots, n, a, i, j))
            && a + 48 == 4096 * (n - 1)
            && exists i, j :: i == n - 2 && UnusedOf(p.slots, i, j, a)
  {
    IssuesExactly(p, size, a, n, issued);
    PagesForIs(a, n);
    forall i, j | At(p.slots, i, j) && i < n - 1
      ensures p.slots[i][j].sizeAvail >= a <==>
              a + 48 == 4096 * (n - 1) && i == n - 2 && UnusedOf(p.slots, i, j, a)
    {
      PoolTheorems.NextSmallerOnly(p.slots[i][j], i, a);
    }
    forall i, j | At(p.slots, i, j) && i >= n - 1 && p.slots[i][j].sizeAvail >= a
      ensures Room(p.slots, n, a, i, j)
    {
    }
  }

  // ------------------------------------------------------------ creation, removal, clearing

  /** A created pool of n pages has the header of 200 bytes behind that of its memnode, which is alone in
      its slot; one of 21 pages has no memnode. */
  lemma CreateAnswers(size: nat, a: nat, n: nat, issued: nat)
    requires size < 0x1_0000_0000_0000_0000
    requires Rounded(size, a) && PagesFor((a + 200) % 0x1_0000_0000_0000_0000, n)
    ensures Create(size, issued).Some? <==> n <= 21
    ensures n <= 21 ==>
              var p := Create(size, issued).value;
              && p.home == issued && p.cleanups == [] && p.reserve == [] && |p.slots| == 20
              && (forall i | 0 <= i < 20 && i != n - 1 :: p.slots[i] == [])
              && (n <= 20 ==> p.slots[n - 1] == [Node(issued, 248, 248, 4096 * n - 248, 4096 * n - 248, 4096 * n)])
  {
    RoundedIs(size, a);
    PagesForIs((a + 200) % 0x1_0000_0000_0000_0000, n);
  }

  /** Of the cleanups for the task the last-added one goes, its node to the front of the reserve; with no
      cleanup for the task nothing changes. */
  lemma UnregisterAnswers(p: Pool, task: Task, i: nat)
    requires i <= |p.cleanups| && forall x | 0 <= x < i :: p.cleanups[x].task != task
    ensures i == |p.cleanups| ==> Unregister(p, task) == p
    ensures i < |p.cleanups| && p.cleanups[i].task == task ==>
              var q := Unregister(p, task);
              && q.slots == p.slots && q.home == p.home
              && |q.cleanups| == |p.cleanups| - 1
              && (forall x | 0 <= x < |p.cleanups| && x != i ::
                    q.cleanups[if x < i then x else x - 1] == p.cleanups[x])
              && q.reserve == [p.cleanups[i].at] + p.reserve
  {
  }

  lemma {:induction false} ReservedReverses(cs: seq<Cleanup>, reserve: seq<Addr>)
    ensures var r := Reserved(cs, reserve);
            && |r| == |cs| + |reserve|
            && (forall x | 0 <= x < |cs| :: r[|cs| - 1 - x] == cs[x].at)
            && forall x | 0 <= x < |reserve| :: r[|cs| + x] == reserve[x]
  {
    if cs != [] {
      var more := [cs[0].at] + reserve;
      ReservedReverses(cs[1..], more);
      forall x | 0 <= x < |reserve| ensures Reserved(cs, reserve)[|cs| + x] == reserve[x] {
        assert more[x + 1] == reserve[x];
      }
      assert forall x | 0 < x < |cs| :: cs[1..][x - 1] == cs[x];
      assert Reserved(cs, reserve)[|cs[1..]| + 0] == more[0];
    }
  }

  /** A cleared pool has every memnode empty again where it was, no cleanups, and the nodes of the cleanups
      that were run, the last one first, in front of the reserve. */
  lemma ClearAnswers(p: Pool)
    ensures var q, k := Cleared(p), |p.cleanups|;
            && q.home == p.home && q.cleanups == []
            && |q.slots| == |p.slots| && (forall i | 0 <= i < |p.slots| :: |q.slots[i]| == |p.slots[i]|)
            && (forall i, j | At(p.slots, i, j) ::
                  q.slots[i][j] == p.slots[i][j].(firstAvail := p.slots[i][j].begin, sizeAvail := p.slots[i][j].size))
            && |q.reserve| == k + |p.reserve|
            && (forall x | 0 <= x < k :: q.reserve[k - 1 - x] == p.cleanups[x].at)
            && forall x | 0 <= x < |p.reserve| :: q.reserve[k + x] == p.reserve[x]
  {
    ReservedReverses(p.cleanups, p.reserve);
  }
}
