/** malloc, free and realloc keep the allocator's invariant over any run. */
module HeapRuns {
  import opened Options
  import opened Bitmap
  import opened Bytes
  import opened HeapModel
  import opened HeapInvariant

  // ---------------------------------------------------------------
  // malloc
  // ---------------------------------------------------------------

  /** A new small arena, all of whose blocks go on an empty free list. */
  lemma AddSmall(h: Heap, used: seq<bool>, p: nat, d: nat)
    requires Inv(h) && p !in h.arenas && |used| == |h.used| && d < 7 && h.free[d] == []
    requires ArenasOk(used, h.arenas[p := Arena(Some(d), BlocksPerArena(d))])
    ensures var h' := h.(used := used, arenas := h.arenas[p := Arena(Some(d), BlocksPerArena(d))],
                         free := h.free[d := AllBlocks(p, BlocksPerArena(d))]);
            Base(h') && NoneFreeBut(h'.arenas, Some(p))
  {
    hide ArenasOk, ListOk, SmallOk, LivesOk;
    var a, list := Arena(Some(d), BlocksPerArena(d)), AllBlocks(p, BlocksPerArena(d));
    var arenas', free' := h.arenas[p := a], h.free[d := list];
    AllBlocksOk(arenas', p, d);
    NotYetLive(h.arenas, h.live, p);
    AddKeepsOthers(h.arenas, h.free, h.live, p, a);
    NewArenaSmallOk(h.live, p, d);
    forall q, e | 0 <= e < 7 && IsSmall(arenas', q, e)
      ensures SmallOk(arenas'[q], free'[e], h.live, q, e)
    {
      if q != p {
        assert IsSmall(h.arenas, q, e);
        SmallElsewhere(h.arenas[q], h.free[e], free'[e], h.live, h.live, q, e);
      }
    }
  }

  lemma NewArenaSmallOk(live: map<nat, nat>, p: nat, d: nat)
    requires d < 7 && forall a | a in live :: a / 4096 != p
    ensures SmallOk(Arena(Some(d), BlocksPerArena(d)), AllBlocks(p, BlocksPerArena(d)), live, p, d)
  {
    AllBlocksOk(map[p := Arena(Some(d), BlocksPerArena(d))], p, d);
    forall k | 0 <= k < BlocksPerArena(d)
      ensures Addr(p, d, k) !in live
    {
      BlockPlace(p, d, k);
    }
  }

  lemma InvIsBase(h: Heap)
    ensures Inv(h) <==> Base(h) && NoneFreeBut(h.arenas, None)
    ensures Inv(h) ==> |h.free| == 7
  {
  }

  lemma WeakenNoneFree(arenas: map<nat, Arena>, p: nat)
    requires NoneFreeBut(arenas, None)
    ensures NoneFreeBut(arenas, Some(p))
  {
  }

  lemma RefillKeeps(h: Heap, d: nat)
    requires Inv(h) && d < 7
    ensures var (h', ok) := Refill(h, d);
            && (!ok ==> h' == h)
            && (ok ==> Base(h') && h'.free[d] != [] && NoneFreeBut(h'.arenas, Some(h'.free[d][0].page)))
            && h'.live == h.live && h'.mem == h.mem && |h'.free| == 7
  {
    hide Inv, Base, ArenasOk, SetRun, FirstRun, NoneFreeBut;
    InvIsBase(h);
    Parts(h);
    if h.free[d] != [] {
      WeakenNoneFree(h.arenas, h.free[d][0].page);
    } else {
      var (h1, r) := PallocGet(h, 1);
      if r.Some? {
        var p := r.value;
        var a := Arena(Some(d), BlocksPerArena(d));
        FreshPages(h.used, h.arenas, p, 1);
        SetRunIs(h.used, p, 1, true);
        AddArena(h1.used, h.arenas, p, a);
        AddSmall(h, h1.used, p, d);
        assert [] + AllBlocks(p, BlocksPerArena(d)) == AllBlocks(p, BlocksPerArena(d));
      }
    }
  }

  lemma TakenNotFree(arenas: map<nat, Arena>, p: nat, d: nat, n: nat)
    requires NoneFreeBut(arenas, Some(p)) && d < 7 && n < BlocksPerArena(d)
    ensures NoneFreeBut(arenas[p := Arena(Some(d), n)], None)
  {
  }

  /** malloc keeps the invariant, returns a block that no caller holds, and changes no byte. */
  lemma MallocKeeps(h: Heap, size: nat)
    requires Inv(h) && size < 0xFFFF_FFF5
    ensures |h.free| == 7
    ensures var (h', r) := Malloc(h, size);
            && Inv(h') && h'.mem == h.mem
            && (r.None? ==> h'.live == h.live)
            && (r.Some? ==> size > 0 && r.value !in h.live && h'.live == h.live[r.value := size])
  {
    hide Inv, Base, NoneFreeBut, Refill, TakeBlock, MallocBig;
    InvIsBase(h);
    if size > 0 {
      match DescFor(size)
      case None => MallocBigKeeps(h, size);
      case Some(d) =>
        var (h1, ok) := Refill(h, d);
        RefillKeeps(h, d);
        if ok {
          var p := h1.free[d][0].page;
          TakeKeeps(h1, d, size);
          var (h2, r) := TakeBlock(h1, d, size);
          TakenNotFree(h1.arenas, p, d, h1.arenas[p].freeCnt - 1);
          InvIsBase(h2);
        }
    }
  }

  // ---------------------------------------------------------------
  // free
  // ---------------------------------------------------------------

  /** A live pointer into a small arena is the address of its block. */
  lemma LiveSmall(h: Heap, a: nat, d: nat)
    requires LivesOk(h.arenas, h.live) && a in h.live && IsSmall(h.arenas, a / 4096, d) && d < 7
    ensures a % 4096 >= 12 && (a % 4096 - 12) % BlockSize(d) == 0
    ensures var k := BlockIndex(a, d);
            k < BlocksPerArena(d) && a == Addr(a / 4096, d, k) && h.live[a] <= BlockSize(d)
  {
    assert LiveOk(h.arenas, a, h.live[a]);
    var k :| 0 <= k < BlocksPerArena(d) && a == Addr(a / 4096, d, k) && h.live[a] <= BlockSize(d);
    BlockPlace(a / 4096, d, k);
  }

  lemma PutKeepsLists(arenas: map<nat, Arena>, free: seq<seq<Blk>>, b: Blk, d: nat, n: nat)
    requires |free| == 7 && ListsOk(arenas, free) && d < 7 && BlockOf(arenas, d, b) && b !in free[d]
    ensures ListsOk(arenas[b.page := Arena(Some(d), n)], free[d := [b] + free[d]])
  {
    TailNoRepeats(b, free[d]);
    var free', arenas' := free[d := [b] + free[d]], arenas[b.page := Arena(Some(d), n)];
    forall e | 0 <= e < 7
      ensures ListOk(arenas', free'[e], e)
    {
      assert ListOk(arenas, free[e], e);
    }
  }

  lemma SmallAfterPut(arenas: map<nat, Arena>, a: Arena, list: seq<Blk>, live: map<nat, nat>, d: nat, b: Blk)
    requires d < 7 && b.k < BlocksPerArena(d) && ListOk(arenas, list, d) && SmallOk(a, list, live, b.page, d)
    requires b !in list
    ensures SmallOk(a.(freeCnt := a.freeCnt + 1), [b] + list, live - {Addr(b.page, d, b.k)}, b.page, d)
  {
    TailNoRepeats(b, list);
    ConsFreeIdx(b, list, b.page);
    forall k | 0 <= k < BlocksPerArena(d)
      ensures Addr(b.page, d, k) == Addr(b.page, d, b.k) <==> k == b.k
      ensures Blk(b.page, k) in [b] + list <==> Blk(b.page, k) in list || k == b.k
    {
      if k != b.k { BlocksApart(b.page, b.page, d, d, k, b.k); }
    }
  }

  lemma PutKeepsSmalls(h: Heap, d: nat, b: Blk)
    requires |h.free| == 7 && ListsOk(h.arenas, h.free) && SmallsOk(h.arenas, h.free, h.live)
    requires d < 7 && BlockOf(h.arenas, d, b) && b !in h.free[d]
    ensures SmallsOk(h.arenas[b.page := Arena(Some(d), h.arenas[b.page].freeCnt + 1)], h.free[d := [b] + h.free[d]],
                     h.live - {Addr(b.page, d, b.k)})
  {
    hide SmallOk, ListOk;
    var list, x := [b] + h.free[d], Addr(b.page, d, b.k);
    var arenas' := h.arenas[b.page := Arena(Some(d), h.arenas[b.page].freeCnt + 1)];
    var free', live' := h.free[d := list], h.live - {x};
    assert ListOk(h.arenas, h.free[d], d);
    BlockPlace(b.page, d, b.k);
    forall q, e | 0 <= e < 7 && IsSmall(arenas', q, e)
      ensures SmallOk(arenas'[q], free'[e], live', q, e)
    {
      assert IsSmall(h.arenas, q, e);
      if q == b.page {
        SmallAfterPut(h.arenas, h.arenas[q], h.free[d], h.live, d, b);
      } else {
        forall k: nat ensures e == d ==> (Blk(q, k) in list <==> Blk(q, k) in h.free[d]) {}
        SmallElsewhere(h.arenas[q], h.free[e], free'[e], h.live, live', q, e);
      }
    }
  }

  lemma LiveRemoved(arenas: map<nat, Arena>, live: map<nat, nat>, p: nat, d: nat, n: nat, x: nat)
    requires LivesOk(arenas, live) && IsSmall(arenas, p, d)
    ensures LivesOk(arenas[p := Arena(Some(d), n)], live - {x})
  {
    var arenas', live' := arenas[p := Arena(Some(d), n)], live - {x};
    forall a | a in live'
      ensures LiveOk(arenas', a, live'[a])
    {
      assert LiveOk(arenas, a, live[a]);
    }
  }

  /** A live block put back on its free list. */
  ghost function Put(h: Heap, d: nat, b: Blk, mem: seq<byte>): Heap
    requires d < |h.free| && b.page in h.arenas
  {
    h.(mem := mem, live := h.live - {Addr(b.page, d, b.k)},
       arenas := h.arenas[b.page := Arena(Some(d), h.arenas[b.page].freeCnt + 1)], free := h.free[d := [b] + h.free[d]])
  }

  lemma PutKeeps(h: Heap, d: nat, b: Blk, mem: seq<byte>)
    requires Base(h) && d < 7 && BlockOf(h.arenas, d, b) && Addr(b.page, d, b.k) in h.live && |mem| == |h.mem|
    ensures Base(Put(h, d, b, mem))
    ensures h.arenas[b.page].freeCnt < BlocksPerArena(d)
  {
    hide ArenasOk, ListsOk, SmallsOk, LivesOk, Addr;
    BlockNotFree(h, d, b);
    RecountArenas(h.used, h.arenas, b.page, Arena(Some(d), h.arenas[b.page].freeCnt + 1));
    PutKeepsLists(h.arenas, h.free, b, d, h.arenas[b.page].freeCnt + 1);
    PutKeepsSmalls(h, d, b);
    LiveRemoved(h.arenas, h.live, b.page, d, h.arenas[b.page].freeCnt + 1, Addr(b.page, d, b.k));
    BigsStay(h.arenas, h.live, b, d, h.arenas[b.page].freeCnt + 1);
  }

  lemma BlockNotFree(h: Heap, d: nat, b: Blk)
    requires Base(h) && d < 7 && BlockOf(h.arenas, d, b) && Addr(b.page, d, b.k) in h.live
    ensures b !in h.free[d]
    ensures h.arenas[b.page].freeCnt < BlocksPerArena(d)
  {
    hide ArenasOk, LivesOk, BigsOk, Addr;
    assert ListOk(h.arenas, h.free[d], d);
    assert SmallOk(h.arenas[b.page], h.free[d], h.live, b.page, d);
    assert Blk(b.page, b.k) == b;
    IndexBound(h.arenas, h.free[d], b.page, d);
  }

  lemma BigsStay(arenas: map<nat, Arena>, live: map<nat, nat>, b: Blk, d: nat, n: nat)
    requires BigsOk(arenas, live) && BlockOf(arenas, d, b) && d < 7
    ensures BigsOk(arenas[b.page := Arena(Some(d), n)], live - {Addr(b.page, d, b.k)})
  {
    BlockPlace(b.page, d, b.k);
  }

  /** h' is h without the arena at p. */
  ghost predicate Dropped(h: Heap, h': Heap, p: nat) {
    && p in h.arenas && h'.arenas == h.arenas - {p} && |h.free| == |h'.free| == 7
    && (forall e | 0 <= e < 7 :: h'.free[e] == if h.arenas[p].desc == Some(e) then WithoutPage(h.free[e], p)
       else h.free[e])
    && (forall x: nat | x in h.live && x / 4096 == p :: h.arenas[p].desc.None? && x == 4096 * p + 12)
    && h'.live == if h.arenas[p].desc.None? then h.live - {4096 * p + 12} else h.live
  }

  lemma DropLists(h: Heap, h': Heap, p: nat)
    requires Dropped(h, h', p) && ListsOk(h.arenas, h.free)
    ensures ListsOk(h'.arenas, h'.free)
    ensures forall e, b: Blk | 0 <= e < 7 && b.page != p :: b in h'.free[e] <==> b in h.free[e]
  {
    hide WithoutPage;
    forall e | 0 <= e < 7
      ensures ListOk(h'.arenas, h'.free[e], e)
      ensures forall b: Blk :: b in h'.free[e] <==> b in h.free[e] && b.page != p
    {
      assert ListOk(h.arenas, h.free[e], e);
      WithoutPageOk(h.free[e], p);
      forall b | b in h.free[e] && b.page == p ensures h.arenas[p].desc == Some(e) {
        assert BlockOf(h.arenas, e, b);
      }
    }
  }

  lemma DropSmalls(h: Heap, h': Heap, p: nat)
    requires Dropped(h, h', p) && SmallsOk(h.arenas, h.free, h.live)
    requires forall e, b: Blk | 0 <= e < 7 && b.page != p :: b in h'.free[e] <==> b in h.free[e]
    ensures SmallsOk(h'.arenas, h'.free, h'.live)
  {
    hide WithoutPage, SmallOk;
    forall q, e | 0 <= e < 7 && IsSmall(h'.arenas, q, e)
      ensures SmallOk(h'.arenas[q], h'.free[e], h'.live, q, e)
    {
      assert IsSmall(h.arenas, q, e);
      SmallElsewhere(h.arenas[q], h.free[e], h'.free[e], h.live, h'.live, q, e);
    }
  }

  lemma DropLives(h: Heap, h': Heap, p: nat)
    requires Dropped(h, h', p) && LivesOk(h.arenas, h.live) && BigsOk(h.arenas, h.live)
    ensures LivesOk(h'.arenas, h'.live) && BigsOk(h'.arenas, h'.live)
  {
    hide WithoutPage, LiveOk;
    forall x: nat | x in h'.live
      ensures LiveOk(h'.arenas, x, h'.live[x])
    {
      assert x in h.live && LiveOk(h.arenas, x, h.live[x]);
      LiveElsewhere(h.arenas, h'.arenas, p, x, h.live[x]);
    }
  }

  lemma LiveElsewhere(arenas: map<nat, Arena>, arenas': map<nat, Arena>, p: nat, x: nat, size: nat)
    requires LiveOk(arenas, x, size) && arenas' == arenas - {p} && x / 4096 != p
    ensures LiveOk(arenas', x, size)
  {
  }

  /** An arena none of whose blocks stays live leaves the books. */
  lemma DropKeeps(h: Heap, h': Heap, p: nat)
    requires Base(h) && NoneFreeBut(h.arenas, Some(p)) && Dropped(h, h', p)
    requires !h'.panicked && |h'.mem| == |h.mem| && |h'.used| == |h.used| && ArenasOk(h'.used, h'.arenas)
    ensures Inv(h')
  {
    hide ArenasOk, ListsOk, SmallsOk, LivesOk, BigsOk;
    DropLists(h, h', p);
    DropSmalls(h, h', p);
    DropLives(h, h', p);
    assert NoneFreeBut(h'.arenas, None) by { hide Base, Dropped; NoneLeft(h.arenas, h'.arenas, p); }
  }

  lemma NoneLeft(arenas: map<nat, Arena>, arenas': map<nat, Arena>, p: nat)
    requires NoneFreeBut(arenas, Some(p)) && arenas' == arenas - {p}
    ensures NoneFreeBut(arenas', None)
  {
  }

  /** palloc_free_multiple's assertion holds for the pages of an arena. */
  lemma FreePages(h: Heap, p: nat, n: nat)
    requires ArenasOk(h.used, h.arenas) && |h.mem| == 4096 * |h.used| && p in h.arenas && n == PageCount(h.arenas[p])
    ensures n > 0 && RunOf(h.used, p, n, true) && 4096 * (p + n) <= |h.mem|
    ensures ArenasOk(SetRun(h.used, p, n, false), h.arenas - {p}) && |SetRun(h.used, p, n, false)| == |h.used|
  {
    DropArena(h.used, h.arenas, p);
  }

  // ---------------------------------------------------------------
  // Where live blocks lie
  // ---------------------------------------------------------------

  lemma PagesApart(used: seq<bool>, arenas: map<nat, Arena>, p: nat, q: nat)
    requires ArenasOk(used, arenas) && p in arenas && q in arenas && p != q
    ensures p + PageCount(arenas[p]) <= q || q + PageCount(arenas[q]) <= p
  {
    assert InArena(arenas, p, p) && InArena(arenas, q, q);
    if p < q {
      assert !InArena(arenas, p, q);
    } else {
      assert !InArena(arenas, q, p);
    }
  }

  /** A live block lies past its arena's header, inside the arena's pages, and is large enough. */
  lemma LiveInside(h: Heap, a: nat)
    requires Base(h) && a in h.live
    ensures var p: nat := a / 4096;
            && p in h.arenas && 4096 * p + 12 <= a
            && a + Room(h, a) <= 4096 * (p + PageCount(h.arenas[p])) <= |h.mem|
            && 0 < h.live[a] <= Room(h, a)
  {
    hide ListsOk, SmallsOk, BigsOk;
    var p: nat := a / 4096;
    assert LiveOk(h.arenas, a, h.live[a]);
    if h.arenas[p].desc.Some? { LiveSmall(h, a, h.arenas[p].desc.value); BlockFits(a, h.arenas[p].desc.value); }
    assert InArena(h.arenas, p, p + PageCount(h.arenas[p]) - 1);
  }

  lemma BlockFits(a: nat, d: nat)
    requires d < 7 && a % 4096 >= 12 && BlockIndex(a, d) < BlocksPerArena(d)
    requires a == Addr(a / 4096, d, BlockIndex(a, d))
    ensures a + BlockSize(d) <= 4096 * (a / 4096) + 4096
  {
    BlockPlace(a / 4096, d, BlockIndex(a, d));
  }

  /** Different live blocks share no byte. */
  lemma LiveApart(h: Heap, a: nat, b: nat)
    requires Base(h) && a in h.live && b in h.live && a != b
    ensures a / 4096 in h.arenas && b / 4096 in h.arenas
    ensures a + Room(h, a) <= b || b + Room(h, b) <= a
  {
    hide Base, Addr, Room, ArenasOk, LivesOk, SmallsOk, ListsOk, BigsOk;
    Parts(h);
    LiveInside(h, a);
    LiveInside(h, b);
    if a / 4096 != b / 4096 {
      PagesApart(h.used, h.arenas, a / 4096, b / 4096);
    } else {
      SamePageApart(h, a, b);
    }
  }

  lemma SamePageApart(h: Heap, a: nat, b: nat)
    requires LivesOk(h.arenas, h.live) && a in h.live && b in h.live && a != b && a / 4096 == b / 4096
    requires ArenasOk(h.used, h.arenas)
    ensures a / 4096 in h.arenas
    ensures a + Room(h, a) <= b || b + Room(h, b) <= a
  {
    hide Addr;
    assert LiveOk(h.arenas, a, h.live[a]) && LiveOk(h.arenas, b, h.live[b]);
    if h.arenas[a / 4096].desc.Some? {
      var d := h.arenas[a / 4096].desc.value;
      LiveSmall(h, a, d);
      LiveSmall(h, b, d);
      BlocksApart(a / 4096, a / 4096, d, d, BlockIndex(a, d), BlockIndex(b, d));
    }
  }

  /** The bytes of every block live in h but a read the same in mem. */
  ghost predicate OthersKept(h: Heap, a: nat, mem: seq<byte>) {
    && |mem| == |h.mem|
    && forall x: nat, i: nat | x in h.live && x != a && x / 4096 in h.arenas && x <= i < x + Room(h, x) && i < |mem| ::
         mem[i] == h.mem[i]
  }

  /** Overwriting a stretch that no other live block meets. */
  lemma FillKeepsOthers(h: Heap, a: nat, at: nat, n: nat, value: byte)
    requires Base(h) && at + n <= |h.mem|
    requires forall x: nat | x in h.live && x != a && x / 4096 in h.arenas :: x + Room(h, x) <= at || at + n <= x
    ensures OthersKept(h, a, Fill(h.mem, at, n, value))
  {
    hide Base, Room;
    var mem := Fill(h.mem, at, n, value);
    forall x: nat, i: nat | x in h.live && x != a && x / 4096 in h.arenas && x <= i < x + Room(h, x) && i < |mem|
      ensures mem[i] == h.mem[i]
    {
      LiveInside(h, x);
      FillAt(h.mem, at, n, value, i);
    }
    assert |mem| == |h.mem|;
    assert OthersKept(h, a, mem);
  }

  /** The pages of an arena meet no block of another arena. */
  lemma PagesClear(h: Heap, p: nat, a: nat)
    requires Base(h) && p in h.arenas
    requires forall x: nat | x in h.live && x != a :: x / 4096 != p
    ensures forall x: nat | x in h.live && x != a && x / 4096 in h.arenas ::
              x + Room(h, x) <= 4096 * p || 4096 * p + 4096 * PageCount(h.arenas[p]) <= x
  {
    hide Base, Room;
    Parts(h);
    forall x: nat | x in h.live && x != a && x / 4096 in h.arenas
      ensures x + Room(h, x) <= 4096 * p || 4096 * p + 4096 * PageCount(h.arenas[p]) <= x
    {
      LiveInside(h, x);
      PagesApart(h.used, h.arenas, x / 4096, p);
    }
  }

  // ---------------------------------------------------------------
  // free keeps the invariant
  // ---------------------------------------------------------------

  /** A wholly free arena has no live block. */
  lemma WhollyFree(h: Heap, p: nat, d: nat)
    requires Base(h) && d < 7 && IsSmall(h.arenas, p, d) && h.arenas[p].freeCnt == BlocksPerArena(d)
    ensures forall x: nat | x in h.live :: x / 4096 != p
  {
    hide ArenasOk, BigsOk, Addr, LivesOk;
    assert SmallOk(h.arenas[p], h.free[d], h.live, p, d);
    assert ListOk(h.arenas, h.free[d], d);
    IndexBound(h.arenas, h.free[d], p, d);
    forall x: nat | x in h.live
      ensures x / 4096 != p
    {
      if x / 4096 == p { LiveSmall(h, x, d); }
    }
  }

  /** palloc_free_multiple on an arena's pages, the arena struck from the books. */
  ghost function Drop(h: Heap, p: nat, n: nat): Heap
    requires |h.free| == 7 && p in h.arenas
  {
    match h.arenas[p].desc
    case None => PallocFree(h.(arenas := h.arenas - {p}, live := h.live - {4096 * p + 12}), p, n)
    case Some(d) =>
      if d < 7 then PallocFree(h.(arenas := h.arenas - {p}, free := h.free[d := WithoutPage(h.free[d], p)]), p, n)
          else h
  }

  lemma DropInv(h: Heap, p: nat, a: nat)
    requires Base(h) && p in h.arenas && NoneFreeBut(h.arenas, Some(p)) && a / 4096 == p
    requires h.arenas[p].desc.None? ==> a == 4096 * p + 12
    requires forall x: nat | x in h.live && x != a :: x / 4096 != p
    requires h.arenas[p].desc.Some? ==> a !in h.live
    ensures var h' := Drop(h, p, PageCount(h.arenas[p]));
            Inv(h') && h'.live == h.live - {a} && OthersKept(h, a, h'.mem)
  {
    hide Base, ArenasOk, SetRun, RunOf, WithoutPage, NoneFreeBut, OthersKept, Inv, Fill;
    hide ListsOk, SmallsOk, BigsOk, LivesOk, Room, BlocksPerArena, BlockSize;
    Parts(h);
    var n := PageCount(h.arenas[p]);
    var h' := Drop(h, p, n);
    FreePages(h, p, n);
    DescBound(h, p);
    assert h'.mem == Fill(h.mem, 4096 * p, 4096 * n, 0xcc);
    PagesClear(h, p, a);
    FillKeepsOthers(h, a, 4096 * p, 4096 * n, 0xcc);
    DropKeeps(h, h', p);
  }

  lemma DescBound(h: Heap, p: nat)
    requires ArenasOk(h.used, h.arenas) && p in h.arenas
    ensures h.arenas[p].desc.Some? ==> h.arenas[p].desc.value < 7
  {
  }

  lemma KeptTwice(h: Heap, h1: Heap, a: nat, mem: seq<byte>)
    requires OthersKept(h, a, h1.mem) && OthersKept(h1, a, mem)
    requires forall x | x in h.live && x != a :: x in h1.live
    requires forall p | p in h.arenas ::
               p in h1.arenas && h1.arenas[p].desc == h.arenas[p].desc
                   && (h.arenas[p].desc.Some? || h.arenas[p] == h1.arenas[p])
    ensures OthersKept(h, a, mem)
  {
    forall x: nat, i: nat | x in h.live && x != a && x / 4096 in h.arenas && x <= i < x + Room(h, x) && i < |mem|
      ensures mem[i] == h.mem[i]
    {
      assert Room(h1, x) == Room(h, x);
      assert h1.mem[i] == h.mem[i];
    }
  }

  lemma RoomOfSmall(h: Heap, a: nat, d: nat)
    requires IsSmall(h.arenas, a / 4096, d)
    ensures Room(h, a) == BlockSize(d)
  {
  }

  lemma ClearingKeepsOthers(h: Heap, a: nat)
    requires Base(h) && a in h.live
    ensures a / 4096 in h.arenas && a + Room(h, a) <= |h.mem|
    ensures OthersKept(h, a, Fill(h.mem, a, Room(h, a), 0xcc))
  {
    hide *;
    LiveInside(h, a);
    forall x: nat | x in h.live && x != a && x / 4096 in h.arenas
      ensures x + Room(h, x) <= a || a + Room(h, a) <= x
    {
      LiveApart(h, x, a);
    }
    FillKeepsOthers(h, a, a, Room(h, a), 0xcc);
  }

  lemma FreeSmallKeeps(h: Heap, a: nat, d: nat)
    requires Inv(h) && a in h.live && d < 7 && IsSmall(h.arenas, a / 4096, d)
    ensures |h.free| == 7
    ensures var h' := FreeSmall(h, a, d);
            Inv(h') && h'.live == h.live - {a} && OthersKept(h, a, h'.mem)
  {
    hide Base, Inv, NoneFreeBut, OthersKept, Fill, Addr, WithoutPage, PallocFree, BlockIndex, Room;
    hide ArenasOk, ListsOk, SmallsOk, BigsOk, LivesOk, BlockSize, BlocksPerArena;
    InvIsBase(h);
    Parts(h);
    LiveSmall(h, a, d);
    LiveInside(h, a);
    RoomOfSmall(h, a, d);
    var p: nat := a / 4096;
    var b := Blk(p, BlockIndex(a, d));
    var mem := Fill(h.mem, a, BlockSize(d), 0xcc);
    var h1 := Put(h, d, b, mem);
    PutKeeps(h, d, b, mem);
    Parts(h1);
    ClearingKeepsOthers(h, a);
    var h' := FreeSmall(h, a, d);
    if h1.arenas[p].freeCnt >= BlocksPerArena(d) {
      WhollyFree(h1, p, d);
      StillNoneFree(h.arenas, h1.arenas, p, d);
      DropInv(h1, p, a);
      assert h' == Drop(h1, p, 1);
      KeptTwice(h, h1, a, h'.mem);
    } else {
      StillNoneFree(h.arenas, h1.arenas, p, d);
      InvIsBase(h');
    }
  }

  lemma StillNoneFree(arenas: map<nat, Arena>, arenas': map<nat, Arena>, p: nat, d: nat)
    requires NoneFreeBut(arenas, None) && exists n :: arenas' == arenas[p := Arena(Some(d), n)]
    ensures NoneFreeBut(arenas', Some(p))
    ensures arenas'[p].freeCnt < BlocksPerArena(d) ==> NoneFreeBut(arenas', None)
  {
  }

  /** free keeps the invariant (none of its assertions fails), gives up exactly that block, and
      leaves every other live block as it was. */
  lemma FreeKeeps(h: Heap, a: nat)
    requires Inv(h) && a in h.live
    ensures |h.free| == 7
    ensures var h' := Free(h, a);
            Inv(h') && h'.live == h.live - {a} && OthersKept(h, a, h'.mem)
  {
    hide Base, Inv, NoneFreeBut, OthersKept, Addr, FreeSmall, PallocFree, Room;
    InvIsBase(h);
    Parts(h);
    LiveValid(h, a);
    var p: nat := a / 4096;
    DescBound(h, p);
    match h.arenas[p].desc {
      case None =>
        assert LiveOk(h.arenas, a, h.live[a]);
        forall x: nat | x in h.live && x != a
          ensures x / 4096 != p
        {
          assert LiveOk(h.arenas, x, h.live[x]);
        }
        WeakenNoneFree(h.arenas, p);
        DropInv(h, p, a);
        assert Free(h, a) == Drop(h, p, h.arenas[p].freeCnt);
      case Some(d) => FreeSmallKeeps(h, a, d);
    }
  }

  lemma LiveValid(h: Heap, a: nat)
    requires LivesOk(h.arenas, h.live) && ArenasOk(h.used, h.arenas) && a in h.live
    ensures ValidBlock(h, a)
  {
    hide Addr, ArenasOk;
    DescBound(h, a / 4096) by { assert LiveOk(h.arenas, a, h.live[a]); }
    assert LiveOk(h.arenas, a, h.live[a]);
    if h.arenas[a / 4096].desc.Some? { LiveSmall(h, a, h.arenas[a / 4096].desc.value); }
  }
}
