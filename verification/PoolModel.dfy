/** A pool on values: its memnodes by slot, its cleanups and its reserve of cleanup nodes, and what
    each operation makes of them. Memory from the operating system comes in regions, named by the
    order in which they were issued. */
module PoolModel {
  import opened Basics
  import opened PoolSizes

  datatype Addr = Addr(region: nat, offset: nat)

  /** Running a cleanup frees an oversized block or calls a handler. */
  datatype Task = Release(region: nat) | Call(handler: nat, data: nat)

  /** A registered cleanup and where its node lies. */
  datatype Cleanup = Cleanup(at: Addr, task: Task)

  datatype Node = Node(region: nat, begin: nat, firstAvail: nat, size: nat, sizeAvail: nat, deallocSize: nat)

  type Slots = seq<seq<Node>>

  /** Chains newest first, cleanups last-added first. The pool header lies in the region home. */
  datatype Pool = Pool(home: nat, slots: Slots, cleanups: seq<Cleanup>, reserve: seq<Addr>)

  // ------------------------------------------------------------ memnodes

  function FreshNode(region: nat, pages: nat): Node
    requires pages > 0
  {
    var size := PAGE * pages - NODE;
    Node(region, NODE, NODE, size, size, PAGE * pages)
  }

  function Carve(n: Node, a: nat): Node
    requires a <= n.sizeAvail
  {
    n.(firstAvail := n.firstAvail + a, sizeAvail := n.sizeAvail - a)
  }

  /** The first block of a fresh memnode is taken without a look at the room it has: the sums are size_t
      and pointer sums, and wrap. */
  function TakeFirst(n: Node, a: nat): Node {
    n.(firstAvail := (n.firstAvail + a) % SIZE_MOD, sizeAvail := (n.sizeAvail - a) % SIZE_MOD)
  }

  lemma TakeFirstFits(region: nat, pages: nat, a: nat)
    requires 0 < pages <= SLOTS && a <= PAGE * pages - NODE
    ensures TakeFirst(FreshNode(region, pages), a) == Carve(FreshNode(region, pages), a)
  {
  }

  function Reset(n: Node): Node {
    n.(firstAvail := n.begin, sizeAvail := n.size)
  }

  // ------------------------------------------------------------ search

  function InChain(c: seq<Node>, a: nat): (j: nat)
    ensures j <= |c| && (j < |c| ==> c[j].sizeAvail >= a)
    ensures forall k | 0 <= k < j :: c[k].sizeAvail < a
  {
    if c == [] || c[0].sizeAvail >= a then 0 else 1 + InChain(c[1..], a)
  }

  /** The first memnode from slot i on, chain by chain, with a bytes available. */
  function FirstFit(s: Slots, i: nat, a: nat): (r: Option<(nat, nat)>)
    requires i <= |s|
    ensures r.Some? ==> i <= r.value.0 < |s| && r.value.1 < |s[r.value.0]| && s[r.value.0][r.value.1].sizeAvail >= a
    ensures r.Some? ==> forall k, l | i <= k < r.value.0 && 0 <= l < |s[k]| :: s[k][l].sizeAvail < a
    ensures r.Some? ==> forall l | 0 <= l < r.value.1 :: s[r.value.0][l].sizeAvail < a
    ensures r.None? ==> forall k, l | i <= k < |s| && 0 <= l < |s[k]| :: s[k][l].sizeAvail < a
    decreases |s| - i
  {
    if i == |s| then None
    else
      var j := InChain(s[i], a);
      if j < |s[i]| then Some((i, j)) else FirstFit(s, i + 1, a)
  }

  // ------------------------------------------------------------ operations

  /** A pool after an operation, what the operation returned, and the regions issued so far. */
  datatype Result = Result(pool: Pool, mem: Option<Addr>, issued: nat)

  function CarveAt(s: Slots, i: nat, j: nat, a: nat): Slots
    requires i < |s| && j < |s[i]| && a <= s[i][j].sizeAvail
  {
    s[i := s[i][j := Carve(s[i][j], a)]]
  }

  function PushAt(s: Slots, i: nat, n: Node): Slots
    requires i < |s|
  {
    s[i := [n] + s[i]]
  }

  /** a bytes from a memnode of the pool, or from a new one of the given number of pages. */
  function ObtainFrom(p: Pool, pages: nat, a: nat, issued: nat): Result
    requires |p.slots| == SLOTS && 0 < pages <= SLOTS
  {
    match FirstFit(p.slots, pages - 1, a)
    case Some(at) =>
      var n := p.slots[at.0][at.1];
      Result(p.(slots := CarveAt(p.slots, at.0, at.1, a)), Some(Addr(n.region, n.firstAvail)), issued)
    case None =>
      var n := TakeFirst(FreshNode(issued, pages), a);
      Result(p.(slots := PushAt(p.slots, pages - 1, n)), Some(Addr(issued, NODE)), issued + 1)
  }

  function Obtain(p: Pool, a: nat, issued: nat): Result
    requires |p.slots| == SLOTS && Pages(a) <= SLOTS
  {
    ObtainFrom(p, Pages(a), a, issued)
  }

  /** fpx_pool_cleanup_add: the node comes from the reserve if there is one. */
  function Register(p: Pool, task: Task, issued: nat): Result
    requires |p.slots| == SLOTS
  {
    if p.reserve != [] then
      var at := p.reserve[0];
      Result(p.(cleanups := [Cleanup(at, task)] + p.cleanups, reserve := p.reserve[1..]), Some(at), issued)
    else
      var r := Obtain(p, CLEANUP, issued);
      r.(pool := r.pool.(cleanups := [Cleanup(r.mem.value, task)] + p.cleanups))
  }

  /** fpx_palloc: a request too large for the slots goes to the system allocator, and its release is
      registered as a cleanup. A memnode without a slot is stored past the array of the header, where the
      pointer to the parent is; nothing reads that, so the pool never sees the memnode again. */
  function Alloc(p: Pool, size: nat, issued: nat): Result
    requires |p.slots| == SLOTS
  {
    var a := AlignAllocation(size);
    if a == 0 then Result(p, None, issued)
    else if Pages(a) - 1 > SLOTS then Register(p, Release(issued), issued + 1).(mem := Some(Addr(issued, 0)))
    else if Slotless(a) then Result(p, Some(Addr(issued, NODE)), issued + 1)
    else Obtain(p, a, issued)
  }

  /** What fpx_pool_create finds pages for. */
  function WithHeader(size: nat): nat {
    (AlignAllocation(size) + HEADER) % SIZE_MOD
  }

  /** A pool whose header is at the start of its first memnode. If that has no slot, the pool starts
      without memnodes. */
  function Begun(pages: nat, issued: nat): Pool
    requires 0 < pages <= SLOTS + 1
  {
    if pages - 1 == SLOTS then Pool(issued, seq(SLOTS, _ => []), [], [])
    else
      var begin := NODE + HEADER;
      var n := Node(issued, begin, begin, PAGE * pages - begin, PAGE * pages - begin, PAGE * pages);
      Pool(issued, PushAt(seq(SLOTS, _ => []), pages - 1, n), [], [])
  }

  /** fpx_pool_create */
  function Create(size: nat, issued: nat): Option<Pool> {
    var pages := Pages(WithHeader(size));
    if AlignAllocation(size) == 0 || pages - 1 > SLOTS then None else Some(Begun(pages, issued))
  }

  function IndexOf(cs: seq<Cleanup>, task: Task): (i: nat)
    ensures i <= |cs| && (i < |cs| ==> cs[i].task == task)
    ensures forall k | 0 <= k < i :: cs[k].task != task
  {
    if cs == [] || cs[0].task == task then 0 else 1 + IndexOf(cs[1..], task)
  }

  /** fpx_pool_cleanup_remove, and fpx_pool_cleanup_run apart from running it: the last registered
      cleanup for the task goes to the reserve. */
  function Unregister(p: Pool, task: Task): Pool {
    var i := IndexOf(p.cleanups, task);
    if i == |p.cleanups| then p
    else p.(cleanups := p.cleanups[..i] + p.cleanups[i + 1..], reserve := [p.cleanups[i].at] + p.reserve)
  }

  function Tasks(cs: seq<Cleanup>): seq<Task> {
    seq(|cs|, i requires 0 <= i < |cs| => cs[i].task)
  }

  /** The reserve after all the cleanups have been run, first to last. */
  function Reserved(cs: seq<Cleanup>, reserve: seq<Addr>): seq<Addr> {
    if cs == [] then reserve else Reserved(cs[1..], [cs[0].at] + reserve)
  }

  function ResetAll(s: Slots): Slots {
    seq(|s|, i requires 0 <= i < |s| => seq(|s[i]|, j requires 0 <= j < |s[i]| => Reset(s[i][j])))
  }

  /** fpx_pool_clear, for the pool itself. */
  function Cleared(p: Pool): Pool {
    p.(slots := ResetAll(p.slots), cleanups := [], reserve := Reserved(p.cleanups, p.reserve))
  }

  // ------------------------------------------------------------ sizes

  function ChainSum(c: seq<Node>, f: Node -> int): int {
    if c == [] then 0 else f(c[0]) + ChainSum(c[1..], f)
  }

  function Sum(s: Slots, f: Node -> int): int {
    if s == [] then 0 else ChainSum(s[0], f) + Sum(s[1..], f)
  }

  /** fpx_pool_get_total_size goes by the slot, not by the memnode. */
  function TotalFrom(s: Slots, i: nat): nat
    requires i <= |s|
    decreases |s| - i
  {
    if i == |s| then 0 else PAGE * (i + 1) * |s[i]| + TotalFrom(s, i + 1)
  }
}
