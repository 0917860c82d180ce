/** The allocator gives every page back: once its callers hold nothing, the pool is as it was. */
module HeapReturns {
  import opened Options
  import opened Bitmap
  import opened Bytes
  import opened HeapModel
  import opened HeapInvariant
  import opened HeapRuns
  import opened HeapTheorems

  ghost predicate Held(arenas: map<nat, Arena>, q: nat) {
    exists p :: InArena(arenas, p, q)
  }

  /** A page is in use just when it was at the start or an arena has it, and not for both reasons. */
  ghost predicate Accounted(used0: seq<bool>, used: seq<bool>, arenas: map<nat, Arena>) {
    && |used0| == |used|
    && forall q: nat | q < |used| :: (used[q] <==> used0[q] || Held(arenas, q)) && !(used0[q] && Held(arenas, q))
  }

  lemma AddAccounted(used0: seq<bool>, used: seq<bool>, arenas: map<nat, Arena>, p: nat, a: Arena)
    requires Accounted(used0, used, arenas) && p !in arenas && RunOf(used, p, PageCount(a), false)
    ensures Accounted(used0, SetRun(used, p, PageCount(a), true), arenas[p := a])
  {
    var n, arenas' := PageCount(a), arenas[p := a];
    var used' := SetRun(used, p, n, true);
    forall q: nat | q < |used|
      ensures Held(arenas', q) <==> Held(arenas, q) || p <= q < p + n
    {
      if Held(arenas, q) {
        var r :| InArena(arenas, r, q);
        assert InArena(arenas', r, q);
      }
      if p <= q < p + n { assert InArena(arenas', p, q); }
      if Held(arenas', q) {
        var r :| InArena(arenas', r, q);
        if r != p { assert InArena(arenas, r, q); }
      }
    }
  }

  lemma RecountAccounted(used0: seq<bool>, used: seq<bool>, arenas: map<nat, Arena>, p: nat, a: Arena)
    requires Accounted(used0, used, arenas) && p in arenas && arenas[p].desc.Some? && a.desc == arenas[p].desc
    ensures Accounted(used0, used, arenas[p := a])
  {
    var arenas' := arenas[p := a];
    forall q: nat
      ensures Held(arenas', q) <==> Held(arenas, q)
    {
      if Held(arenas, q) {
        var r :| InArena(arenas, r, q);
        assert InArena(arenas', r, q);
      }
      if Held(arenas', q) {
        var r :| InArena(arenas', r, q);
        assert InArena(arenas, r, q);
      }
    }
  }

  lemma DropAccounted(used0: seq<bool>, used: seq<bool>, arenas: map<nat, Arena>, p: nat)
    requires Accounted(used0, used, arenas) && ArenasOk(used, arenas) && p in arenas
    requires RunOf(used, p, PageCount(arenas[p]), true)
    ensures Accounted(used0, SetRun(used, p, PageCount(arenas[p]), false), arenas - {p})
  {
    var n, arenas' := PageCount(arenas[p]), arenas - {p};
    forall q: nat | q < |used|
      ensures Held(arenas', q) <==> Held(arenas, q) && !(p <= q < p + n)
      ensures p <= q < p + n ==> Held(arenas, q)
    {
      if p <= q < p + n { assert InArena(arenas, p, q); }
      if Held(arenas, q) && !(p <= q < p + n) {
        var r :| InArena(arenas, r, q);
        assert InArena(arenas', r, q);
      }
      if Held(arenas', q) {
        var r :| InArena(arenas', r, q);
        assert InArena(arenas, r, q);
      }
    }
  }

  // ---------------------------------------------------------------
  // Every operation keeps the account
  // ---------------------------------------------------------------

  lemma RefillAccounted(used0: seq<bool>, h: Heap, d: nat)
    requires Inv(h) && d < 7 && Accounted(used0, h.used, h.arenas)
    ensures |h.free| == 7
    ensures var h' := Refill(h, d).0; Accounted(used0, h'.used, h'.arenas)
  {
    hide Inv, Base, Accounted, FirstRun, SetRun, ArenasOk, RunOf;
    InvIsBase(h);
    Parts(h);
    var (h1, r) := PallocGet(h, 1);
    if h.free[d] == [] && r.Some? {
      FreshPages(h.used, h.arenas, r.value, 1);
      AddAccounted(used0, h.used, h.arenas, r.value, Arena(Some(d), BlocksPerArena(d)));
    }
  }

  lemma BigAccounted(used0: seq<bool>, h: Heap, size: nat)
    requires Inv(h) && Accounted(used0, h.used, h.arenas)
    ensures var h' := MallocBig(h, size).0; Accounted(used0, h'.used, h'.arenas)
  {
    hide Inv, Base, Accounted, FirstRun, SetRun, ArenasOk, RunOf, PagesFor;
    InvIsBase(h);
    Parts(h);
    var (h1, r) := PallocGet(h, PagesFor(size));
    if r.Some? {
      FreshPages(h.used, h.arenas, r.value, PagesFor(size));
      AddAccounted(used0, h.used, h.arenas, r.value, Arena(None, PagesFor(size)));
    }
  }

  lemma MallocAccounted(used0: seq<bool>, h: Heap, size: nat)
    requires Inv(h) && SizeFits(size) && Accounted(used0, h.used, h.arenas)
    ensures |h.free| == 7
    ensures var h' := Malloc(h, size).0; Accounted(used0, h'.used, h'.arenas)
  {
    hide Inv, Base, Accounted, Refill, TakeBlock, MallocBig, NoneFreeBut;
    InvIsBase(h);
    if size > 0 {
      match DescFor(size)
      case None => BigAccounted(used0, h, size);
      case Some(d) =>
        var (h1, ok) := Refill(h, d);
        RefillKeeps(h, d);
        RefillAccounted(used0, h, d);
        if ok {
          var p := h1.free[d][0].page;
          TakeKeeps(h1, d, size);
          RecountAccounted(used0, h1.used, h1.arenas, p, Arena(Some(d), h1.arenas[p].freeCnt - 1));
        }
    }
  }

  lemma DroppedAccounted(used0: seq<bool>, h: Heap, p: nat)
    requires Base(h) && Accounted(used0, h.used, h.arenas) && p in h.arenas
    ensures |h.free| == 7
    ensures var h' := Drop(h, p, PageCount(h.arenas[p])); Accounted(used0, h'.used, h'.arenas)
  {
    hide Base, Accounted, SetRun, RunOf, ArenasOk, WithoutPage, Fill, PageCount;
    Parts(h);
    FreePages(h, p, PageCount(h.arenas[p]));
    DescBound(h, p);
    DropAccounted(used0, h.used, h.arenas, p);
  }

  lemma FreeSmallAccounted(used0: seq<bool>, h: Heap, a: nat, d: nat)
    requires Inv(h) && a in h.live && d < 7 && IsSmall(h.arenas, a / 4096, d) && Accounted(used0, h.used, h.arenas)
    ensures |h.free| == 7
    ensures var h' := FreeSmall(h, a, d); Accounted(used0, h'.used, h'.arenas)
  {
    hide Base, Inv, NoneFreeBut, Accounted, Fill, Addr, WithoutPage, PallocFree, BlockIndex, Room;
    hide ArenasOk, ListsOk, SmallsOk, BigsOk, LivesOk, BlockSize, BlocksPerArena;
    InvIsBase(h);
    Parts(h);
    LiveSmall(h, a, d);
    LiveInside(h, a);
    RoomOfSmall(h, a, d);
    var p: nat := a / 4096;
    var b := Blk(p, BlockIndex(a, d));
    var mem := Fill(h.mem, a, BlockSize(d), 0xcc);
    var h1 := Put(h, d, b, mem);
    PutKeeps(h, d, b, mem);
    Parts(h1);
    RecountAccounted(used0, h.used, h.arenas, p, Arena(Some(d), h.arenas[p].freeCnt + 1));
    if h1.arenas[p].freeCnt >= BlocksPerArena(d) {
      DroppedAccounted(used0, h1, p);
      assert FreeSmall(h, a, d) == Drop(h1, p, 1);
    }
  }

  lemma FreeAccounted(used0: seq<bool>, h: Heap, a: nat)
    requires Inv(h) && a in h.live && Accounted(used0, h.used, h.arenas)
    ensures |h.free| == 7
    ensures var h' := Free(h, a); Accounted(used0, h'.used, h'.arenas)
  {
    hide Base, Inv, NoneFreeBut, Accounted, Addr, FreeSmall, PallocFree, Room, WithoutPage;
    hide ArenasOk, ListsOk, SmallsOk, BigsOk, BlocksPerArena, BlockSize;
    InvIsBase(h);
    Parts(h);
    LiveValid(h, a);
    var p: nat := a / 4096;
    DescBound(h, p);
    match h.arenas[p].desc {
      case None =>
        assert LiveOk(h.arenas, a, h.live[a]);
        DroppedAccounted(used0, h, p);
        assert Free(h, a) == Drop(h, p, h.arenas[p].freeCnt);
      case Some(d) => FreeSmallAccounted(used0, h, a, d);
    }
  }

  lemma ReallocAccounted(used0: seq<bool>, h: Heap, p: Option<nat>, size: nat)
    requires Inv(h) && SizeFits(size) && (p.Some? ==> p.value in h.live) && Accounted(used0, h.used, h.arenas)
    ensures |h.free| == 7
    ensures var h' := Realloc(h, p, size).0; Accounted(used0, h'.used, h'.arenas)
  {
    hide Inv, Base, Malloc, Free, ValidBlock, Room, Copy, Accounted, Moved, SameBytes, OthersKept;
    InvIsBase(h);
    if size == 0 {
      if p.Some? { FreeAccounted(used0, h, p.value); }
    } else {
      MallocKeeps(h, size);
      MallocAccounted(used0, h, size);
      var (h1, r) := Malloc(h, size);
      if r.Some? && p.Some? {
        InvIsBase(h1);
        var a, b := p.value, r.value;
        if ValidBlock(h1, a) {
          InArenas(h1, a);
          var n := if size < Room(h1, a) then size else Room(h1, a);
          if b + n <= |h1.mem| && a + n <= |h1.mem| {
            MemIsFree(h1, Copy(h1.mem, b, a, n));
            FreeAccounted(used0, h1.(mem := Copy(h1.mem, b, a, n)), a);
          }
        }
      }
    }
  }

  lemma InArenas(h: Heap, a: nat)
    requires ValidBlock(h, a)
    ensures a / 4096 in h.arenas
  {
  }

  lemma {:induction false} RunAccounted(used0: seq<bool>, h: Heap, ops: seq<Op>, h': Heap)
    requires Inv(h) && Reaches(h, ops, h') && Accounted(used0, h.used, h.arenas)
    ensures Inv(h') && Accounted(used0, h'.used, h'.arenas)
    decreases |ops|
  {
    hide Inv, Accounted, Malloc, Free, Realloc;
    if ops != [] {
      DoKeeps(h, ops[0]);
      match ops[0] {
        case MallocOp(size) => MallocAccounted(used0, h, size);
        case FreeOp(p) => if p.Some? { FreeAccounted(used0, h, p.value); }
        case ReallocOp(p, size) => ReallocAccounted(used0, h, p, size);
        case StoreOp(_, _, _) =>
      }
      RunAccounted(used0, Do(h, ops[0]), ops[1..], h');
    }
  }

  /** An arena has a live block. */
  lemma ArenaIsLive(h: Heap, p: nat)
    requires Inv(h) && p in h.arenas
    ensures h.live != map[]
  {
    hide ArenasOk, LivesOk, Addr;
    DescBound(h, p) by { InvIsBase(h); Parts(h); }
    match h.arenas[p].desc {
      case None => assert 4096 * p + 12 in h.live;
      case Some(d) =>
        assert SmallOk(h.arenas[p], h.free[d], h.live, p, d) && ListOk(h.arenas, h.free[d], d);
        if forall k | 0 <= k < BlocksPerArena(d) :: Blk(p, k) in h.free[d] {
          assert FreeIdx(h.free[d], p) == Below(BlocksPerArena(d)) by { FreeIdxBelow(h, p, d); }
        } else {
          var k :| 0 <= k < BlocksPerArena(d) && Blk(p, k) !in h.free[d];
          assert Addr(p, d, k) in h.live;
        }
    }
  }

  lemma FreeIdxBelow(h: Heap, p: nat, d: nat)
    requires d < |h.free| && ListOk(h.arenas, h.free[d], d)
    requires forall k | 0 <= k < BlocksPerArena(d) :: Blk(p, k) in h.free[d]
    ensures IsSmall(h.arenas, p, d) && FreeIdx(h.free[d], p) == Below(BlocksPerArena(d))
  {
    assert Blk(p, 0) in h.free[d] && BlockOf(h.arenas, d, Blk(p, 0));
    forall k: nat | Blk(p, k) in h.free[d]
      ensures k < BlocksPerArena(d)
    {
      assert BlockOf(h.arenas, d, Blk(p, k));
    }
  }

  /** When everything handed out has been given back, every page has been: the pool's bitmap is
      what it was before the first call, and no free list holds anything. */
  lemma EverythingReturns(used: seq<bool>, mem: seq<byte>, ops: seq<Op>, h: Heap)
    requires |mem| == 4096 * |used| && Reaches(Initial(used, mem), ops, h) && h.live == map[]
    ensures h.used == used && h.arenas == map[]
    ensures h.free == Initial(used, mem).free
  {
    InitialInv(used, mem);
    InitialAccounted(used, mem);
    RunAccounted(used, Initial(used, mem), ops, h);
    NothingLeft(used, mem, h);
  }

  lemma InitialAccounted(used: seq<bool>, mem: seq<byte>)
    ensures Accounted(used, used, Initial(used, mem).arenas)
  {
  }

  lemma NothingLeft(used: seq<bool>, mem: seq<byte>, h: Heap)
    requires Inv(h) && Accounted(used, h.used, h.arenas) && h.live == map[]
    ensures h.used == used && h.arenas == map[]
    ensures h.free == Initial(used, mem).free
  {
    hide ArenasOk, LivesOk, SmallsOk, BigsOk;
    forall p | p in h.arenas
      ensures false
    {
      ArenaIsLive(h, p);
    }
    assert forall q :: !Held(h.arenas, q);
    assert forall q: nat | q < |used| :: h.used[q] == used[q];
    forall d | 0 <= d < 7 && h.free[d] != []
      ensures false
    {
      ListHead(h.arenas, h.free[d], d);
    }
  }

  lemma ListHead(arenas: map<nat, Arena>, list: seq<Blk>, d: nat)
    requires ListOk(arenas, list, d) && list != []
    ensures arenas != map[]
  {
    assert BlockOf(arenas, d, list[0]);
  }
}
