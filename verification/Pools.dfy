/** Memory pools in place: memnodes whose fields move, pools with their lists, and the first-child,
    next-brother tree they form. */
module Pools {
  import opened Basics
  import opened PoolSizes
  import opened PoolModel
  import opened PoolTheorems
  import opened PoolTree

  /** The system allocator, and what it has been told to do. */
  class System {
    var issued: nat
    var events: seq<Event>

    constructor ()
      ensures issued == 0 && events == []
    {
      issued, events := 0, [];
    }

    method Malloc() returns (region: nat)
      modifies this`issued
      ensures region == old(issued) && issued == region + 1
    {
      region := issued;
      issued := issued + 1;
    }

    method Note(e: Event)
      modifies this`events
      ensures events == old(events) + [e]
    {
      events := events + [e];
    }
  }

  class Memnode {
    const region: nat
    var begin: nat
    var firstAvail: nat
    var size: nat
    var sizeAvail: nat
    var deallocSize: nat

    /** The pool it belongs to, its slot, and how many memnodes of the slot are older. */
    ghost const owner: MemPool
    ghost const slot: nat
    ghost const rank: nat

    /** fpx_memnode_allocate */
    constructor (region: nat, pages: nat, ghost owner: MemPool, ghost slot: nat, ghost rank: nat)
      requires pages > 0
      ensures Value() == FreshNode(region, pages)
      ensures this.owner == owner && this.slot == slot && this.rank == rank
    {
      this.region := region;
      this.begin, this.firstAvail := NODE, NODE;
      this.size, this.sizeAvail := PAGE * pages - NODE, PAGE * pages - NODE;
      this.deallocSize := PAGE * pages;
      this.owner, this.slot, this.rank := owner, slot, rank;
    }

    ghost function Value(): Node
      reads this
    {
      Node(region, begin, firstAvail, size, sizeAvail, deallocSize)
    }

    /** The first block is taken without a look at the room there is. */
    method TakeOff(a: nat) returns (offset: nat)
      modifies this
      ensures offset == old(firstAvail) && Value() == TakeFirst(old(Value()), a)
    {
      sizeAvail := (sizeAvail - a) % SIZE_MOD;
      offset := firstAvail;
      firstAvail := (firstAvail + a) % SIZE_MOD;
    }

    method CarveOff(a: nat) returns (offset: nat)
      requires a <= sizeAvail
      modifies this
      ensures offset == old(firstAvail) && Value() == Carve(old(Value()), a)
    {
      sizeAvail := sizeAvail - a;
      offset := firstAvail;
      firstAvail := firstAvail + a;
    }
  }

  lemma CleanupNodeIsSmall(p: Pool, issued: nat)
    requires |p.slots| == SLOTS
    ensures Pages(AlignAllocation(CLEANUP)) == 1
    ensures Alloc(p, CLEANUP, issued) == Obtain(p, CLEANUP, issued)
  {
    assert Align(CLEANUP) == 24;
  }

  lemma ResetNext(s: Slots, v: Slots, i: nat)
    requires i < |s| && v == ResetAll(s)[..i] + s[i..]
    ensures v[i := ResetAll(v)[i]] == ResetAll(s)[..i + 1] + s[i + 1..]
  {
  }

  class MemPool {
    const home: nat
    var nodes: seq<seq<Memnode>>
    var parent: MemPool?
    var brother: MemPool?
    var child: MemPool?
    var cleanups: seq<Cleanup>
    var freeCleanups: seq<Addr>

    /** All memnodes of the pool, and what their fields hold, place by place. */
    ghost var members: set<Memnode>
    ghost var view: Slots

    /** Every memnode knows its place, so no two places hold the same one. */
    ghost predicate Placed()
      reads this`nodes, this`members, this`view, members
    {
      && |nodes| == SLOTS == |view|
      && (forall m | m in members :: m.owner == this)
      && (forall i | 0 <= i < SLOTS :: |view[i]| == |nodes[i]|)
      && (forall i, j | 0 <= i < SLOTS && 0 <= j < |nodes[i]| ::
            nodes[i][j] in members && nodes[i][j].slot == i && nodes[i][j].rank == |nodes[i]| - 1 - j)
      && (forall i, j | 0 <= i < SLOTS && 0 <= j < |nodes[i]| :: nodes[i][j].Value() == view[i][j])
    }

    ghost function State(): Pool
      reads this`view, this`cleanups, this`freeCleanups
    {
      Pool(home, view, cleanups, freeCleanups)
    }

    /** The two nested loops of the search. */
    method Search(index: nat, a: nat) returns (node: Memnode?, i: nat, j: nat)
      requires Placed() && index <= SLOTS
      ensures FirstFit(view, index, a) == if node == null then None else Some((i, j))
      ensures node != null ==> i < SLOTS && j < |nodes[i]| && node == nodes[i][j] && a <= node.sizeAvail
    {
      ghost var s := view;
      i, j := index, 0;
      while i < SLOTS
        invariant index <= i <= SLOTS && FirstFit(s, index, a) == FirstFit(s, i, a)
      {
        j := 0;
        while j < |nodes[i]|
          invariant j <= |nodes[i]| && forall l | 0 <= l < j :: s[i][l].sizeAvail < a
        {
          node := nodes[i][j];
          if node.sizeAvail >= a {
            assert InChain(s[i], a) == j;
            return;
          }
          j := j + 1;
        }
        assert InChain(s[i], a) == |s[i]|;
        i := i + 1;
      }
      node := null;
    }

    /** A block is taken from a memnode of the pool. */
    method CarveNode(node: Memnode, ghost i: nat, ghost j: nat, a: nat) returns (mem: Addr)
      requires Placed() && i < SLOTS && j < |nodes[i]| && node == nodes[i][j] && a <= node.sizeAvail
      modifies node, this`view
      ensures Placed() && view == CarveAt(old(view), i, j, a)
      ensures mem == Addr(old(view)[i][j].region, old(view)[i][j].firstAvail)
    {
      assert view[i][j] == node.Value();
      var offset := node.CarveOff(a);
      mem := Addr(node.region, offset);
      view := CarveAt(view, i, j, a);
      forall k, l | 0 <= k < SLOTS && 0 <= l < |nodes[k]| ensures nodes[k][l].Value() == view[k][l] {
        assert nodes[k][l] == node <==> k == i && l == j;
      }
    }

    /** A memnode is registered at the head of its slot. */
    method PushNode(index: nat, n: Memnode)
      requires Placed() && index < SLOTS && n !in members
      requires n.owner == this && n.slot == index && n.rank == |nodes[index]|
      modifies this`nodes, this`members, this`view
      ensures Placed() && members == old(members) + {n}
      ensures view == PushAt(old(view), index, n.Value())
    {
      nodes := nodes[index := [n] + nodes[index]];
      members := members + {n};
      view := PushAt(view, index, n.Value());
    }

    /** A new memnode, registered in its slot, with the request already taken from it. */
    method GrowBy(sys: System, pages: nat, a: nat) returns (mem: Addr)
      requires Placed() && 0 < pages <= SLOTS
      modifies sys`issued, this`nodes, this`members, this`view
      ensures Placed() && fresh(members - old(members)) && old(members) <= members
      ensures view == PushAt(old(view), pages - 1, TakeFirst(FreshNode(old(sys.issued), pages), a))
      ensures mem == Addr(old(sys.issued), NODE) && sys.issued == old(sys.issued) + 1
    {
      ghost var s := view;
      var region := sys.Malloc();
      var node := new Memnode(region, pages, this, pages - 1, |nodes[pages - 1]|);
      var offset := node.TakeOff(a);
      mem := Addr(region, offset);
      PushNode(pages - 1, node);
    }

    /** The part of fpx_palloc for requests that fit a slot. */
    method Obtain(sys: System, pages: nat, a: nat) returns (mem: Addr)
      requires Placed() && 0 < pages <= SLOTS
      modifies sys`issued, this`nodes, this`members, this`view, members
      ensures Placed() && fresh(members - old(members)) && old(members) <= members
      ensures var r := ObtainFrom(old(State()), pages, a, old(sys.issued));
              State() == r.pool && Some(mem) == r.mem && sys.issued == r.issued
    {
      ghost var r := ObtainFrom(State(), pages, a, sys.issued);
      var node, i, j := Search(pages - 1, a);
      if node != null {
        mem := CarveNode(node, i, j, a);
        assert State() == r.pool;
      } else {
        mem := GrowBy(sys, pages, a);
        assert State() == r.pool;
      }
    }

    /** fpx_palloc */
    method Palloc(sys: System, size: nat) returns (mem: Option<Addr>)
      requires Placed() && size < SIZE_MOD
      modifies sys`issued, this`nodes, this`members, this`view, this`cleanups, this`freeCleanups, members
      ensures Placed() && fresh(members - old(members)) && old(members) <= members
      ensures var r := Alloc(old(State()), size, old(sys.issued));
              State() == r.pool && mem == r.mem && sys.issued == r.issued
      decreases if Pages(AlignAllocation(size)) - 1 > SLOTS then 2 else 0
    {
      var a := AlignAllocation(size);
      if a == 0 {
        return None;
      }
      if Pages(a) - 1 > SLOTS {
        var region := sys.Malloc();
        CleanupAdd(sys, Release(region));
        return Some(Addr(region, 0));
      }
      if Pages(a) - 1 == SLOTS {
        var region := sys.Malloc();
        var node := new Memnode(region, Pages(a), this, SLOTS, 0);
        var offset := node.TakeOff(a);
        return Some(Addr(region, offset));
      }
      var at := Obtain(sys, Pages(a), a);
      return Some(at);
    }

    /** fpx_pool_cleanup_add */
    method CleanupAdd(sys: System, task: Task)
      requires Placed()
      modifies sys`issued, this`nodes, this`members, this`view, this`cleanups, this`freeCleanups, members
      ensures Placed() && fresh(members - old(members)) && old(members) <= members
      ensures var r := Register(old(State()), task, old(sys.issued));
              State() == r.pool && sys.issued == r.issued
      decreases 1
    {
      var at;
      if freeCleanups != [] {
        at := freeCleanups[0];
        freeCleanups := freeCleanups[1..];
      } else {
        CleanupNodeIsSmall(State(), sys.issued);
        var mem := Palloc(sys, CLEANUP);
        at := mem.value;
      }
      cleanups := [Cleanup(at, task)] + cleanups;
    }

    /** The loop of fpx_pool_cleanup_run and fpx_pool_cleanup_remove. */
    method FindCleanup(task: Task) returns (i: nat)
      ensures i == IndexOf(cleanups, task)
    {
      i := 0;
      while i < |cleanups|
        invariant i <= |cleanups| && forall k | 0 <= k < i :: cleanups[k].task != task
      {
        if cleanups[i].task == task {
          return;
        }
        i := i + 1;
      }
    }

    /** fpx_pool_cleanup_remove */
    method CleanupRemove(task: Task)
      requires Placed()
      modifies this`cleanups, this`freeCleanups
      ensures State() == Unregister(old(State()), task)
    {
      var i := FindCleanup(task);
      if i < |cleanups| {
        freeCleanups := [cleanups[i].at] + freeCleanups;
        cleanups := cleanups[..i] + cleanups[i + 1..];
      }
    }

    /** fpx_pool_cleanup_run */
    method CleanupRun(sys: System, task: Task)
      requires Placed()
      modifies sys`events, this`cleanups, this`freeCleanups
      ensures State() == Unregister(old(State()), task)
      ensures sys.events == old(sys.events) + if task in Tasks(old(cleanups)) then [Ran(task)] else []
    {
      var i := FindCleanup(task);
      if i < |cleanups| {
        assert Tasks(cleanups)[i] == task;
        sys.Note(Ran(task));
        freeCleanups := [cleanups[i].at] + freeCleanups;
        cleanups := cleanups[..i] + cleanups[i + 1..];
      }
    }
  
    // ---------------------------------------------------------- creation

    constructor Empty(home: nat)
      ensures Placed() && this.home == home && members == {} && view == seq(SLOTS, _ => [])
      ensures forall i | 0 <= i < SLOTS :: nodes[i] == []
      ensures parent == null && brother == null && child == null && cleanups == [] && freeCleanups == []
    {
      this.home := home;
      nodes, members, view := seq(SLOTS, _ => []), {}, seq(SLOTS, _ => []);
      parent, brother, child := null, null, null;
      cleanups, freeCleanups := [], [];
    }

    /** fpx_pool_add_child */
    method AddChild(newChild: MemPool, ghost kids: Shape, ghost below: Shape)
      requires Proper(kids) && Linked(child, kids) && Proper(below) && Linked(newChild.child, below)
      requires this !in Everyone(kids) + Everyone(below) + {newChild} && newChild !in Everyone(kids) + Everyone(below)
      requires Everyone(kids) !! Everyone(below) && newChild.Placed()
      modifies this`child, newChild`parent, newChild`brother
      ensures newChild.parent == this && child == newChild && newChild.brother == old(child)
      ensures Proper(Joined(newChild, below, kids)) && Linked(child, Joined(newChild, below, kids))
    {
      newChild.parent := this;
      if child != null {
        var temp := child;
        child := newChild;
        newChild.brother := temp;
      } else {
        child := newChild;
        newChild.brother := null;
      }
    }

    /** A pool at the start of a new memnode of that many pages. */
    static method Begun(sys: System, pages: nat) returns (pool: MemPool)
      requires 0 < pages <= SLOTS + 1
      modifies sys`issued
      ensures fresh(pool) && fresh(pool.members) && pool.Placed() && sys.issued == old(sys.issued) + 1
      ensures pool.State() == PoolModel.Begun(pages, old(sys.issued))
      ensures pool.child == null && pool.parent == null
    {
      var region := sys.Malloc();
      pool := new MemPool.Empty(region);
      if pages - 1 < SLOTS {
        pool.PlaceHome(region, pages);
      }
    }

    /** fpx_pool_create: null stands for failure. */
    static method Create(sys: System, size: nat, parent: MemPool?, ghost kids: Shape) returns (pool: MemPool?)
      requires parent != null ==> Proper(kids) && Linked(parent.child, kids) && parent !in Everyone(kids)
      modifies sys`issued, if parent == null then {} else {parent}
      ensures var made := PoolModel.Create(size, old(sys.issued));
              && (pool == null <==> made.None?)
              && sys.issued == old(sys.issued) + (if pool == null then 0 else 1)
              && (pool != null ==> fresh(pool) && fresh(pool.members) && pool.Placed() && pool.State() == made.value)
              && (pool != null ==> pool.child == null && pool.parent == parent)
      ensures pool == null && parent != null ==> unchanged(parent)
      ensures pool != null && parent != null ==>
                Proper(Joined(pool, Leaf, kids)) && Linked(parent.child, Joined(pool, Leaf, kids))
    {
      var a := AlignAllocation(size);
      if a == 0 {
        return null;
      }
      var pages := Pages((a + HEADER) % SIZE_MOD);
      if pages - 1 > SLOTS {
        return null;
      }
      pool := Begun(sys, pages);
      if parent != null {
        parent.AddChild(pool, kids, Leaf);
      }
    }

    /** The first memnode, shortened by the pool header. */
    method PlaceHome(region: nat, pages: nat)
      requires Placed() && 0 < pages <= SLOTS && nodes[pages - 1] == []
      modifies this`nodes, this`members, this`view
      ensures Placed() && fresh(members - old(members))
      ensures var begin, rest := NODE + HEADER, PAGE * pages - NODE - HEADER;
              view == PushAt(old(view), pages - 1, Node(region, begin, begin, rest, rest, PAGE * pages))
    {
      var node := new Memnode(region, pages, this, pages - 1, 0);
      node.begin := node.begin + HEADER;
      node.size := node.size - HEADER;
      node.firstAvail := node.begin;
      node.sizeAvail := node.size;
      PushNode(pages - 1, node);
    }

    // ---------------------------------------------------------- sizes

    /** fpx_pool_get_size */
    method GetSize() returns (size: int)
      requires Placed()
      ensures size == Sum(view, Size)
    {
      ghost var s := view;
      size := 0;
      var i := 0;
      assert s[0..] == s;
      while i < SLOTS
        invariant i <= SLOTS && Sum(s, Size) == size + Sum(s[i..], Size)
      {
        ghost var before, c := size, s[i];
        assert s[i..][1..] == s[i + 1..];
        var j := 0;
        assert c[0..] == c;
        while j < |nodes[i]|
          invariant j <= |nodes[i]| == |c| && before + ChainSum(c, Size) == size + ChainSum(c[j..], Size)
        {
          assert c[j..][1..] == c[j + 1..] && c[j] == nodes[i][j].Value();
          size := size + nodes[i][j].size;
          j := j + 1;
        }
        i := i + 1;
      }
    }

    /** fpx_pool_get_free_size */
    method GetFreeSize() returns (size: int)
      requires Placed()
      ensures size == Sum(view, Available)
    {
      ghost var s := view;
      size := 0;
      var i := 0;
      assert s[0..] == s;
      while i < SLOTS
        invariant i <= SLOTS && Sum(s, Available) == size + Sum(s[i..], Available)
      {
        ghost var before, c := size, s[i];
        assert s[i..][1..] == s[i + 1..];
        var j := 0;
        assert c[0..] == c;
        while j < |nodes[i]|
          invariant j <= |nodes[i]| == |c| && before + ChainSum(c, Available) == size + ChainSum(c[j..], Available)
        {
          assert c[j..][1..] == c[j + 1..] && c[j] == nodes[i][j].Value();
          size := size + nodes[i][j].sizeAvail;
          j := j + 1;
        }
        i := i + 1;
      }
    }

    /** fpx_pool_get_total_size */
    method GetTotalSize() returns (size: nat)
      requires Placed()
      ensures size == TotalFrom(view, 0)
    {
      ghost var s := view;
      size := 0;
      var i := 0;
      while i < SLOTS
        invariant i <= SLOTS && TotalFrom(s, 0) == size + TotalFrom(s, i)
      {
        ghost var before, bytes := size, PAGE * (i + 1);
        var j := 0;
        while j < |nodes[i]|
          invariant j <= |nodes[i]| && size == before + bytes * j
        {
          assert bytes * (j + 1) == bytes * j + bytes;
          size := size + PAGE * (i + 1);
          j := j + 1;
        }
        assert |s[i]| == |nodes[i]|;
        i := i + 1;
      }
    }

    // ---------------------------------------------------------- teardown

    /** fpx_pool_cleanup_run_all */
    method CleanupRunAll(sys: System)
      modifies sys`events, this`cleanups, this`freeCleanups
      ensures cleanups == [] && freeCleanups == Reserved(old(cleanups), old(freeCleanups))
      ensures sys.events == old(sys.events) + Rans(old(cleanups))
    {
      var temp1 := cleanups;
      while temp1 != []
        invariant Reserved(temp1, freeCleanups) == Reserved(old(cleanups), old(freeCleanups))
        invariant sys.events + Rans(temp1) == old(sys.events) + Rans(old(cleanups))
        decreases |temp1|
      {
        var temp2 := temp1[0];
        temp1 := temp1[1..];
        ghost var was := sys.events;
        sys.Note(Ran(temp2.task));
        assert was + ([Ran(temp2.task)] + Rans(temp1)) == was + [Ran(temp2.task)] + Rans(temp1);
        freeCleanups := [temp2.at] + freeCleanups;
      }
      cleanups := [];
    }

    /** Every memnode of a slot is made available again. */
    method ResetChain(i: nat)
      requires Placed() && i < SLOTS
      modifies this`view, set m | m in nodes[i]
      ensures Placed() && view == old(view)[i := ResetAll(old(view))[i]]
    {
      ghost var c := view[i];
      var j := 0;
      while j < |nodes[i]|
        invariant j <= |nodes[i]| && view == old(view)
        invariant forall l | 0 <= l < j :: nodes[i][l].Value() == Reset(c[l])
        invariant forall l | j <= l < |c| :: nodes[i][l].Value() == c[l]
      {
        var node := nodes[i][j];
        node.firstAvail := node.begin;
        node.sizeAvail := node.size;
        j := j + 1;
      }
      view := view[i := ResetAll(view)[i]];
      forall k, l | 0 <= k < SLOTS && 0 <= l < |nodes[k]| ensures nodes[k][l].Value() == view[k][l] {
        if k != i {
          assert nodes[k][l] !in nodes[i];
        }
      }
    }

    /** The nested loops of clear over all slots. */
    method ResetNodes()
      requires Placed()
      modifies members, this`view
      ensures Placed() && view == ResetAll(old(view))
    {
      ghost var s := view;
      var i := 0;
      while i < SLOTS
        invariant i <= SLOTS && Placed()
        invariant view == ResetAll(s)[..i] + s[i..]
      {
        ghost var was := view;
        ResetChain(i);
        ResetNext(s, was, i);
        i := i + 1;
      }
    }

    /** fpx_pool_clear */
    method Clear(sys: System, ghost below: Shape)
      requires Family(child, below) && this !in Everyone(below) && Placed()
      modifies sys`events, this`cleanups, this`freeCleanups, this`view, members
      modifies Everyone(below)`cleanups, Everyone(below)`freeCleanups, Everyone(below)`view, Mems(below)
      ensures Placed() && AllPlaced(below)
      ensures sys.events == old(sys.events) + old(ClearEvents(Cons(State(), TreeOf(below), Nil)))
      ensures State() == Cleared(old(State()))
      ensures forall p | p in Everyone(below) :: p.State() == Cleared(old(p.State()))
      decreases Everyone(below), 2
    {
      ClearFirst(State(), TreeOf(below), sys.events);
      RunOwn(sys, below);
      ClearBelow(sys, below);
      ResetOwn(below);
    }

    /** The pool's own cleanups run; the tree below it stays as it is. */
    method RunOwn(sys: System, ghost below: Shape)
      requires Family(child, below) && this !in Everyone(below) && Placed()
      modifies sys`events, this`cleanups, this`freeCleanups
      ensures cleanups == [] && freeCleanups == Reserved(old(cleanups), old(freeCleanups))
      ensures sys.events == old(sys.events) + Rans(old(cleanups))
      ensures Family(child, below) && Placed() && TreeOf(below) == old(TreeOf(below))
      ensures forall p | p in Everyone(below) :: p.State() == old(p.State())
    {
      CleanupRunAll(sys);
    }

    /** The pool's own memnodes are made available; the tree below it stays as it is. */
    method ResetOwn(ghost below: Shape)
      requires Placed() && Proper(below) && AllPlaced(below) && this !in Everyone(below)
      modifies members, this`view
      ensures Placed() && AllPlaced(below) && view == ResetAll(old(view))
      ensures forall p | p in Everyone(below) :: p.State() == old(p.State())
    {
      MembersApart(this, below);
      ResetNodes();
    }

    /** The loop over the children. */
    method ClearBelow(sys: System, ghost below: Shape)
      requires Family(child, below)
      modifies sys`events
      modifies Everyone(below)`cleanups, Everyone(below)`freeCleanups, Everyone(below)`view, Mems(below)
      ensures AllPlaced(below)
      ensures sys.events == old(sys.events) + old(ClearEvents(TreeOf(below)))
      ensures forall p | p in Everyone(below) :: p.State() == Cleared(old(p.State()))
      decreases Everyone(below), 1
    {
      var temp1 := child;
      ghost var rest := below;
      ghost var was := map p | p in Everyone(below) :: p.State();
      ghost var goal := sys.events + ClearEvents(TreeOf(below));
      while temp1 != null
        invariant Clearing(temp1, rest, below, was)
        invariant sys.events + ClearEvents(TreeOf(rest)) == goal
        decreases rest
      {
        Unfold(temp1, rest, below);
        Smaller(rest, below);
        temp1 := temp1.ClearNextChild(sys, rest, below, was);
        rest := rest.brother;
      }
    }

    /** The first child that is left is cleared. */
    method ClearNextChild(sys: System, ghost s: Shape, ghost below: Shape, ghost was: map<MemPool, Pool>)
      returns (next: MemPool?)
      requires Clearing(this, s, below, was)
      modifies sys`events, this`cleanups, this`freeCleanups, this`view, members
      modifies Everyone(s.child)`cleanups, Everyone(s.child)`freeCleanups, Everyone(s.child)`view, Mems(s.child)
      ensures next == brother && Clearing(next, s.brother, below, was)
      ensures sys.events + ClearEvents(TreeOf(s.brother)) == old(sys.events) + old(ClearEvents(TreeOf(s)))
      decreases Everyone(s), 0
    {
      Unfold(this, s, below);
      next := brother;
      ClearNext(State(), TreeOf(s.child), TreeOf(s.brother), sys.events);
      ClearApart(sys, s.child, s.brother, below);
    }

    /** The pool is cleared; the rest of the tree below its parent stays as it is. */
    method ClearApart(sys: System, ghost c: Shape, ghost b: Shape, ghost below: Shape)
      requires Family(child, c) && this !in Everyone(c) && Placed() && AllPlaced(below)
      requires Proper(b) && Linked(brother, b) && this !in Everyone(b) && Everyone(c) !! Everyone(b)
      modifies sys`events, this`cleanups, this`freeCleanups, this`view, members
      modifies Everyone(c)`cleanups, Everyone(c)`freeCleanups, Everyone(c)`view, Mems(c)
      ensures AllPlaced(below) && Linked(brother, b) && TreeOf(b) == old(TreeOf(b))
      ensures sys.events == old(sys.events) + old(ClearEvents(Cons(State(), TreeOf(c), Nil)))
      ensures forall p | p in {this} + Everyone(c) :: p.State() == Cleared(old(p.State()))
      ensures forall p | p in Everyone(below) && p != this && p !in Everyone(c) :: p.State() == old(p.State())
      decreases Everyone(c), 3
    {
      assert forall p | p in Everyone(below) && p != this && p !in Everyone(c) :: p.members !! members + Mems(c);
      Clear(sys, c);
      forall p | p in Everyone(below) ensures p.Placed() {
      }
    }

    /** Every memnode of a slot is given back. */
    method FreeChain(sys: System, i: nat)
      requires Placed() && i < SLOTS
      modifies sys`events
      ensures sys.events == old(sys.events) + ChainFrees(view[i])
    {
      ghost var c, done := view[i], [];
      var j := 0;
      assert c[0..] == c;
      while j < |nodes[i]|
        invariant j <= |c| && sys.events == old(sys.events) + done
        invariant done + ChainFrees(c[j..]) == ChainFrees(c)
      {
        assert nodes[i][j].Value() == c[j];
        ChainFreesNext(c, j, done);
        sys.Note(Freed(nodes[i][j].region));
        done := done + [Freed(c[j].region)];
        j := j + 1;
      }
    }

    /** The nested loops of destroy over all slots. */
    method FreeNodes(sys: System)
      requires Placed()
      modifies sys`events
      ensures sys.events == old(sys.events) + Frees(home, view)
    {
      ghost var done := [];
      var i := 0;
      assert view[0..] == view;
      while i < SLOTS
        invariant i <= SLOTS && sys.events == old(sys.events) + done
        invariant done + Frees(home, view[i..]) == Frees(home, view)
      {
        FreesNext(home, view, i, done);
        sys.Note(Looked(home));
        FreeChain(sys, i);
        done := done + [Looked(home)] + ChainFrees(view[i]);
        i := i + 1;
      }
    }

    /** fpx_pool_destroy. The memnodes are given back; the pool must not be used again. */
    method Destroy(sys: System, ghost below: Shape)
      requires Family(child, below) && this !in Everyone(below) && Placed()
      modifies sys`events, this`cleanups, this`freeCleanups, Everyone(below)`cleanups, Everyone(below)`freeCleanups
      ensures sys.events == old(sys.events) + old(DestroyEvents(Cons(State(), TreeOf(below), Nil)))
      decreases Everyone(below), 2
    {
      ghost var run, lower, freed := Rans(cleanups), DestroyEvents(TreeOf(below)), Frees(home, view);
      DestroyFirst(State(), TreeOf(below), sys.events);
      RunOwn(sys, below);
      DestroyBelow(sys, below);
      assert sys.events == old(sys.events) + run + lower;
      FreeNodes(sys);
      assert sys.events == old(sys.events) + run + lower + freed;
    }

    /** The loop over the children. */
    method DestroyBelow(sys: System, ghost below: Shape)
      requires Family(child, below)
      modifies sys`events, Everyone(below)`cleanups, Everyone(below)`freeCleanups
      ensures sys.events == old(sys.events) + old(DestroyEvents(TreeOf(below)))
      decreases Everyone(below), 1
    {
      var temp1 := child;
      ghost var rest := below;
      ghost var goal := sys.events + DestroyEvents(TreeOf(below));
      while temp1 != null
        invariant Destroying(temp1, rest, below)
        invariant sys.events + DestroyEvents(TreeOf(rest)) == goal
        decreases rest
      {
        Unfold(temp1, rest, below);
        Smaller(rest, below);
        temp1 := temp1.DestroyNextChild(sys, rest, below);
        rest := rest.brother;
      }
    }

    /** The first child that is left is destroyed. */
    method DestroyNextChild(sys: System, ghost s: Shape, ghost below: Shape) returns (next: MemPool?)
      requires Destroying(this, s, below)
      modifies sys`events, this`cleanups, this`freeCleanups, Everyone(s.child)`cleanups, Everyone(s.child)`freeCleanups
      ensures next == brother && Destroying(next, s.brother, below)
      ensures sys.events + DestroyEvents(TreeOf(s.brother)) == old(sys.events) + old(DestroyEvents(TreeOf(s)))
      decreases Everyone(s), 0
    {
      Unfold(this, s, below);
      next := brother;
      ghost var tree := TreeOf(s.brother);
      DestroyNext(State(), TreeOf(s.child), tree, sys.events);
      Destroy(sys, s.child);
      assert TreeOf(s.brother) == tree;
    }
  }

  // ------------------------------------------------------------ the tree

  /** The pools below a pool: its newest child, what is below that, and the child's older brothers;
      and all of these pools, and all their memnodes, together. */
  datatype Shape = Leaf | Branch(pool: MemPool, child: Shape, brother: Shape, all: set<MemPool>, mems: set<Memnode>)

  ghost function Everyone(s: Shape): set<MemPool> {
    if s.Leaf? then {} else s.all
  }

  ghost function Mems(s: Shape): set<Memnode> {
    if s.Leaf? then {} else s.mems
  }

  ghost function Joined(p: MemPool, child: Shape, brother: Shape): Shape
    reads p`members
  {
    Branch(p, child, brother, {p} + Everyone(child) + Everyone(brother), p.members + Mems(child) + Mems(brother))
  }

  /** No pool occurs twice, and every memnode belongs to one of the pools. */
  ghost predicate Proper(s: Shape) {
    match s
    case Leaf => true
    case Branch(p, child, brother, all, mems) =>
      && all == {p} + Everyone(child) + Everyone(brother)
      && p !in Everyone(child) && p !in Everyone(brother) && Everyone(child) !! Everyone(brother)
      && Mems(child) <= mems && Mems(brother) <= mems
      && (forall m | m in mems :: m.owner in all
                                  && (m.owner in Everyone(child) ==> m in Mems(child))
                                  && (m.owner in Everyone(brother) ==> m in Mems(brother)))
      && Proper(child) && Proper(brother)
  }

  /** From q on, the child and brother pointers follow s. */
  ghost predicate Linked(q: MemPool?, s: Shape)
    requires Proper(s)
    reads Everyone(s)`child, Everyone(s)`brother
  {
    match s
    case Leaf => q == null
    case Branch(p, child, brother, _, _) => q == p && Linked(p.child, child) && Linked(p.brother, brother)
  }

  ghost predicate AllPlaced(s: Shape)
    reads Everyone(s)`nodes, Everyone(s)`members, Everyone(s)`view, Mems(s)
  {
    forall p | p in Everyone(s) :: p.members <= Mems(s) && p.Placed()
  }

  /** A well-formed tree of pools below a pool whose child is q. */
  ghost predicate Family(q: MemPool?, s: Shape)
    reads Everyone(s)`child, Everyone(s)`brother, Everyone(s)`nodes, Everyone(s)`members, Everyone(s)`view, Mems(s)
  {
    Proper(s) && Linked(q, s) && AllPlaced(s)
  }

  /** The children from q on have still to be destroyed. */
  ghost predicate Destroying(q: MemPool?, rest: Shape, below: Shape)
    reads Everyone(rest)`child, Everyone(rest)`brother
    reads Everyone(below)`nodes, Everyone(below)`members, Everyone(below)`view, Mems(below)
  {
    Proper(rest) && Linked(q, rest) && Part(rest, below) && AllPlaced(below)
  }

  /** The children from q on have still to be cleared, all other pools below have been. */
  ghost predicate Clearing(q: MemPool?, rest: Shape, below: Shape, was: map<MemPool, Pool>)
    reads Everyone(rest)`child, Everyone(rest)`brother
    reads Everyone(below)`nodes, Everyone(below)`members, Everyone(below)`view, Mems(below)
    reads Everyone(below)`cleanups, Everyone(below)`freeCleanups
  {
    && Proper(rest) && Linked(q, rest) && Part(rest, below) && AllPlaced(below)
    && forall p | p in Everyone(below) ::
         p in was && p.State() == if p in Everyone(rest) then was[p] else Cleared(was[p])
  }

  ghost function TreeOf(s: Shape): Tree
    requires Proper(s)
    reads Everyone(s)`view, Everyone(s)`cleanups, Everyone(s)`freeCleanups
  {
    match s
    case Leaf => Nil
    case Branch(p, child, brother, _, _) => Cons(p.State(), TreeOf(child), TreeOf(brother))
  }

  /** A pool and its memnodes are no part of a tree it does not occur in. */
  lemma MembersApart(p: MemPool, s: Shape)
    requires p.Placed() && Proper(s) && p !in Everyone(s)
    ensures p.members !! Mems(s)
  {
  }

  /** A part of a tree of pools: its memnodes are those of the tree that belong to its pools. */
  ghost predicate Part(s: Shape, t: Shape) {
    && Everyone(s) <= Everyone(t) && Mems(s) <= Mems(t)
    && forall m | m in Mems(t) && m.owner in Everyone(s) :: m in Mems(s)
  }

  lemma Smaller(s: Shape, t: Shape)
    requires Part(s, t)
    ensures Everyone(s) == Everyone(t) || Everyone(s) < Everyone(t)
  {
  }

  /** The first pool of a part of a tree, what is below it, and what is beside it. */
  lemma Unfold(q: MemPool, s: Shape, t: Shape)
    requires Proper(s) && Linked(q, s) && Part(s, t) && AllPlaced(t)
    ensures s.Branch? && s.pool == q && Everyone(s) == {q} + Everyone(s.child) + Everyone(s.brother)
    ensures q.Placed() && Family(q.child, s.child) && q !in Everyone(s.child)
    ensures Family(q.brother, s.brother) && q !in Everyone(s.brother)
    ensures Part(s.child, t) && Part(s.brother, t) && q.members <= Mems(s)
    ensures Everyone(s.child) !! Everyone(s.brother) && q.members !! Mems(s.brother) && Mems(s.child) !! Mems(s.brother)
    ensures TreeOf(s) == Cons(q.State(), TreeOf(s.child), TreeOf(s.brother))
  {
  }
}
