/** The allocator's invariant, and that every operation keeps it. */
module HeapInvariant {
  import opened Lists
  import opened Options
  import opened Bitmap
  import opened Bytes
  import opened HeapModel

  /** Pages of an arena. */
  ghost function PageCount(a: Arena): nat { if a.desc.Some? then 1 else a.freeCnt }

  ghost predicate InArena(arenas: map<nat, Arena>, p: nat, q: nat) {
    p in arenas && p <= q < p + PageCount(arenas[p])
  }

  /** Arenas lie on used pages and apart from each other. */
  ghost predicate ArenasOk(used: seq<bool>, arenas: map<nat, Arena>) {
    && (forall p | p in arenas :: arenas[p].desc.Some? ==> arenas[p].desc.value < 7)
    && (forall p | p in arenas :: PageCount(arenas[p]) > 0)
    && (forall p, q: nat | InArena(arenas, p, q) :: q < |used| && used[q])
    && (forall p, r, q: nat | InArena(arenas, p, q) && InArena(arenas, r, q) :: p == r)
  }

  ghost predicate IsSmall(arenas: map<nat, Arena>, p: nat, d: nat) {
    p in arenas && arenas[p].desc == Some(d)
  }

  /** A block of an arena of descriptor d. */
  ghost predicate BlockOf(arenas: map<nat, Arena>, d: nat, b: Blk) {
    IsSmall(arenas, b.page, d) && b.k < BlocksPerArena(d)
  }

  /** The indexes of page p's blocks on a free list. */
  ghost function FreeIdx(list: seq<Blk>, p: nat): set<nat> {
    set k: nat | k < 255 && Blk(p, k) in list
  }

  /** A free list holds blocks of its own arenas, each once. */
  ghost predicate ListOk(arenas: map<nat, Arena>, list: seq<Blk>, d: nat) {
    NoRepeats(list) && forall b | b in list :: BlockOf(arenas, d, b)
  }

  /** Each block of a small arena is either free or live, and the arena's counter is the number
      of its free blocks. */
  ghost predicate SmallOk(a: Arena, list: seq<Blk>, live: map<nat, nat>, p: nat, d: nat) {
    && (forall k | 0 <= k < BlocksPerArena(d) :: Blk(p, k) in list <==> Addr(p, d, k) !in live)
    && a.freeCnt == |FreeIdx(list, p)|
  }

  /** A live pointer is the address of a block with room for what was asked. */
  ghost predicate LiveOk(arenas: map<nat, Arena>, a: nat, size: nat) {
    && a / 4096 in arenas && size > 0
    && match arenas[a / 4096].desc
       case Some(d) => exists k :: 0 <= k < BlocksPerArena(d) && a == Addr(a / 4096, d, k) && size <= BlockSize(d)
       case None => a % 4096 == 12 && size <= 4096 * arenas[a / 4096].freeCnt - 12
  }

  ghost predicate ListsOk(arenas: map<nat, Arena>, free: seq<seq<Blk>>)
    requires |free| == 7
  {
    forall d | 0 <= d < 7 :: ListOk(arenas, free[d], d)
  }

  ghost predicate SmallsOk(arenas: map<nat, Arena>, free: seq<seq<Blk>>, live: map<nat, nat>)
    requires |free| == 7
  {
    forall p, d | 0 <= d < 7 && IsSmall(arenas, p, d) :: SmallOk(arenas[p], free[d], live, p, d)
  }

  ghost predicate BigsOk(arenas: map<nat, Arena>, live: map<nat, nat>) {
    forall p | p in arenas && arenas[p].desc.None? :: 4096 * p + 12 in live
  }

  ghost predicate LivesOk(arenas: map<nat, Arena>, live: map<nat, nat>) {
    forall a | a in live :: LiveOk(arenas, a, live[a])
  }

  /** No small arena but p0 is wholly free. */
  ghost predicate NoneFreeBut(arenas: map<nat, Arena>, p0: Option<nat>) {
    forall p | p in arenas && arenas[p].desc.Some? && p0 != Some(p) ::
          arenas[p].freeCnt < BlocksPerArena(arenas[p].desc.value)
  }

  ghost predicate Inv(h: Heap) { Base(h) && NoneFreeBut(h.arenas, None) }

  ghost predicate Base(h: Heap) {
    && !h.panicked && |h.free| == 7 && |h.mem| == 4096 * |h.used|
    && ArenasOk(h.used, h.arenas)
    && ListsOk(h.arenas, h.free)
    && SmallsOk(h.arenas, h.free, h.live)
    && BigsOk(h.arenas, h.live)
    && LivesOk(h.arenas, h.live)
  }

  /** After malloc_init, with any pages of the pool in use by others. */
  ghost function Initial(used: seq<bool>, mem: seq<byte>): Heap {
    Heap(used, map[], seq(7, _ => []), mem, map[], false)
  }

  lemma InitialInv(used: seq<bool>, mem: seq<byte>)
    requires |mem| == 4096 * |used|
    ensures Inv(Initial(used, mem))
  {
  }

  // ---------------------------------------------------------------
  // The page allocator
  // ---------------------------------------------------------------

  /** Pages just allocated belong to no arena. */
  lemma FreshPages(used: seq<bool>, arenas: map<nat, Arena>, p: nat, cnt: nat)
    requires ArenasOk(used, arenas) && RunOf(used, p, cnt, false) && cnt > 0
    ensures ArenasOk(SetRun(used, p, cnt, true), arenas)
    ensures forall r, q: nat | InArena(arenas, r, q) :: !(p <= q < p + cnt)
    ensures p !in arenas
  {
    if p in arenas { assert InArena(arenas, p, p); }
  }

  /** A new arena on fresh pages. */
  lemma AddArena(used: seq<bool>, arenas: map<nat, Arena>, p: nat, a: Arena)
    requires ArenasOk(used, arenas) && p !in arenas && PageCount(a) > 0
    requires a.desc.Some? ==> a.desc.value < 7
    requires RunOf(used, p, PageCount(a), true)
    requires forall r, q: nat | InArena(arenas, r, q) :: !(p <= q < p + PageCount(a))
    ensures ArenasOk(used, arenas[p := a])
  {
    var arenas' := arenas[p := a];
    forall r, q: nat
      ensures InArena(arenas', r, q) <==> if r == p then p <= q < p + PageCount(a) else InArena(arenas, r, q)
    {
    }
  }

  /** An arena given back. */
  lemma DropArena(used: seq<bool>, arenas: map<nat, Arena>, p: nat)
    requires ArenasOk(used, arenas) && p in arenas
    ensures RunOf(used, p, PageCount(arenas[p]), true)
    ensures ArenasOk(SetRun(used, p, PageCount(arenas[p]), false), arenas - {p})
  {
    var n := PageCount(arenas[p]);
    forall q | p <= q < p + n
      ensures q < |used| && used[q]
    {
      assert InArena(arenas, p, q);
    }
    assert p + n <= |used| by { assert InArena(arenas, p, p + n - 1); }
    var arenas' := arenas - {p};
    forall r, q: nat | InArena(arenas', r, q)
      ensures InArena(arenas, r, q) && !(p <= q < p + n)
    {
      assert InArena(arenas, r, q);
      if p <= q < p + n { assert InArena(arenas, p, q); }
    }
  }

  lemma SetRunIs(bits: seq<bool>, p: nat, cnt: nat, value: bool)
    requires p + cnt <= |bits|
    ensures RunOf(SetRun(bits, p, cnt, value), p, cnt, value)
  {
  }

  /** A counter changed in a small arena's header. */
  lemma RecountArenas(used: seq<bool>, arenas: map<nat, Arena>, p: nat, a: Arena)
    requires ArenasOk(used, arenas) && p in arenas && arenas[p].desc.Some? && a.desc == arenas[p].desc
    ensures ArenasOk(used, arenas[p := a])
  {
    var arenas' := arenas[p := a];
    forall r
      ensures r in arenas' <==> r in arenas
      ensures r in arenas ==> PageCount(arenas'[r]) == PageCount(arenas[r]) && arenas'[r].desc == arenas[r].desc
    {
    }
    forall r, q: nat
      ensures InArena(arenas', r, q) <==> InArena(arenas, r, q)
    {
    }
  }

  // ---------------------------------------------------------------
  // Counting free blocks
  // ---------------------------------------------------------------

  lemma ConsFreeIdx(b: Blk, rest: seq<Blk>, p: nat)
    requires NoRepeats([b] + rest) && b.k < 255
    ensures b !in rest && NoRepeats(rest)
    ensures |FreeIdx([b] + rest, p)| == |FreeIdx(rest, p)| + if b.page == p then 1 else 0
  {
    var list := [b] + rest;
    TailNoRepeats(b, rest);
    forall k: nat
      ensures Blk(p, k) in list <==> Blk(p, k) in rest || Blk(p, k) == b
    {
    }
    if b.page == p {
      assert b == Blk(p, b.k);
      assert FreeIdx(list, p) == FreeIdx(rest, p) + {b.k};
    } else {
      assert FreeIdx(list, p) == FreeIdx(rest, p);
    }
  }

  lemma TailNoRepeats(b: Blk, rest: seq<Blk>)
    ensures NoRepeats([b] + rest) <==> NoRepeats(rest) && b !in rest
  {
    var list := [b] + rest;
    assert forall i | 0 <= i < |rest| :: rest[i] == list[i + 1];
    assert forall i | 0 < i < |list| :: list[i] == rest[i - 1];
    if b in rest {
      var j :| 0 <= j < |rest| && rest[j] == b;
      assert list[0] == list[j + 1];
    }
  }

  /** There are at most as many free blocks as blocks. */
  lemma IndexBound(arenas: map<nat, Arena>, list: seq<Blk>, p: nat, d: nat)
    requires ListOk(arenas, list, d)
    ensures |FreeIdx(list, p)| <= BlocksPerArena(d)
    ensures |FreeIdx(list, p)| == BlocksPerArena(d) ==> forall k | 0 <= k < BlocksPerArena(d) :: Blk(p, k) in list
  {
    var all := Below(BlocksPerArena(d));
    assert FreeIdx(list, p) <= all;
    SubsetSize(FreeIdx(list, p), all);
    if |FreeIdx(list, p)| == BlocksPerArena(d) {
      forall k | 0 <= k < BlocksPerArena(d)
        ensures Blk(p, k) in list
      {
        assert k in all;
        assert k in FreeIdx(list, p);
      }
    }
  }

  ghost function Below(n: nat): (r: set<nat>)
    ensures |r| == n && forall k: nat :: k in r <==> k < n
  {
    if n == 0 then {} else Below(n - 1) + {n - 1}
  }

  /** The blocks of a new arena. */
  lemma AllBlocksOk(arenas: map<nat, Arena>, p: nat, d: nat)
    requires d < 7 && IsSmall(arenas, p, d)
    ensures var list := AllBlocks(p, BlocksPerArena(d));
            && ListOk(arenas, list, d) && |FreeIdx(list, p)| == BlocksPerArena(d)
            && (forall b :: b in list <==> b.page == p && b.k < BlocksPerArena(d))
  {
    var n := BlocksPerArena(d);
    var list := AllBlocks(p, n);
    forall b
      ensures b in list <==> b.page == p && b.k < n
    {
      if b.page == p && b.k < n { assert list[b.k] == b; }
    }
    assert FreeIdx(list, p) == Below(n);
  }

  lemma {:induction false} WithoutPageOk(list: seq<Blk>, p: nat)
    ensures forall b :: b in WithoutPage(list, p) <==> b in list && b.page != p
    ensures NoRepeats(list) ==> NoRepeats(WithoutPage(list, p))
  {
    if list != [] {
      WithoutPageOk(list[1..], p);
      assert list == [list[0]] + list[1..];
      TailNoRepeats(list[0], list[1..]);
      TailNoRepeats(list[0], WithoutPage(list[1..], p));
    }
  }

  // ---------------------------------------------------------------
  // malloc: big blocks
  // ---------------------------------------------------------------

  lemma NotYetLive(arenas: map<nat, Arena>, live: map<nat, nat>, p: nat)
    requires LivesOk(arenas, live) && p !in arenas
    ensures forall a | a in live :: a / 4096 != p
    ensures (4096 * p + 12) / 4096 == p
  {
    forall a | a in live
      ensures a / 4096 != p
    {
      assert LiveOk(arenas, a, live[a]);
    }
  }

  /** A new arena disturbs neither the lists nor the live blocks. */
  lemma AddKeepsOthers(arenas: map<nat, Arena>, free: seq<seq<Blk>>, live: map<nat, nat>, p: nat, a: Arena)
    requires p !in arenas && |free| == 7 && ListsOk(arenas, free) && LivesOk(arenas, live)
    ensures ListsOk(arenas[p := a], free)
    ensures LivesOk(arenas[p := a], live)
  {
    var arenas' := arenas[p := a];
    forall d | 0 <= d < 7
      ensures ListOk(arenas', free[d], d)
    {
      assert ListOk(arenas, free[d], d);
    }
    forall x | x in live
      ensures LiveOk(arenas', x, live[x])
    {
      assert LiveOk(arenas, x, live[x]);
    }
  }

  /** live and live' agree about page q. */
  ghost predicate SamePage(live: map<nat, nat>, live': map<nat, nat>, q: nat) {
    forall x: nat | x / 4096 == q :: x in live <==> x in live'
  }

  /** An arena's bookkeeping depends on its own page only. */
  lemma SmallElsewhere(a: Arena, list: seq<Blk>, list': seq<Blk>, live: map<nat, nat>, live': map<nat, nat>, q: nat,
                       d: nat)
    requires d < 7 && SmallOk(a, list, live, q, d) && SamePage(live, live', q)
    requires forall k: nat :: Blk(q, k) in list <==> Blk(q, k) in list'
    ensures SmallOk(a, list', live', q, d)
  {
    forall k | 0 <= k < BlocksPerArena(d)
      ensures Addr(q, d, k) in live <==> Addr(q, d, k) in live'
    {
      BlockPlace(q, d, k);
    }
    assert FreeIdx(list, q) == FreeIdx(list', q);
  }

  lemma BigLive(arenas: map<nat, Arena>, p: nat, size: nat)
    requires p in arenas && arenas[p].desc.None? && 0 < size <= 4096 * arenas[p].freeCnt - 12
    ensures LiveOk(arenas, 4096 * p + 12, size)
  {
  }

  lemma AddBig(h: Heap, used: seq<bool>, p: nat, cnt: nat, size: nat)
    requires Inv(h) && p !in h.arenas && |used| == |h.used|
    requires ArenasOk(used, h.arenas[p := Arena(None, cnt)])
    requires 0 < size <= 4096 * cnt - 12
    ensures Inv(h.(used := used, arenas := h.arenas[p := Arena(None, cnt)], live := h.live[4096 * p + 12 := size]))
  {
    hide ArenasOk, ListsOk, SmallOk, LiveOk;
    var x := 4096 * p + 12;
    var arenas', live' := h.arenas[p := Arena(None, cnt)], h.live[x := size];
    NotYetLive(h.arenas, h.live, p);
    AddKeepsOthers(h.arenas, h.free, h.live, p, Arena(None, cnt));
    BigLive(arenas', p, size);
    forall q, d | 0 <= d < 7 && IsSmall(arenas', q, d)
      ensures SmallOk(arenas'[q], h.free[d], live', q, d)
    {
      assert IsSmall(h.arenas, q, d);
      SmallElsewhere(h.arenas[q], h.free[d], h.free[d], h.live, live', q, d);
    }
  }

  lemma MallocBigKeeps(h: Heap, size: nat)
    requires Inv(h) && 1024 < size && size < 0xFFFF_FFF5
    ensures var (h', r) := MallocBig(h, size);
            && Inv(h') && h'.mem == h.mem
            && (r.None? ==> h' == h)
            && (r.Some? ==> r.value !in h.live && h'.live == h.live[r.value := size])
  {
    hide Inv, Base, ArenasOk, SetRun, FirstRun;
    PagesForSize(size);
    var cnt := PagesFor(size);
    var (h1, r) := PallocGet(h, cnt);
    if r.Some? {
      var p := r.value;
      Parts(h);
      FreshPages(h.used, h.arenas, p, cnt);
      SetRunIs(h.used, p, cnt, true);
      AddArena(h1.used, h.arenas, p, Arena(None, cnt));
      NotYetLive(h.arenas, h.live, p);
      AddBig(h, h1.used, p, cnt, size);
    }
  }

  lemma Parts(h: Heap)
    requires Base(h) || Inv(h)
    ensures !h.panicked && |h.free| == 7 && |h.mem| == 4096 * |h.used|
    ensures ArenasOk(h.used, h.arenas) && ListsOk(h.arenas, h.free) && SmallsOk(h.arenas, h.free, h.live)
    ensures BigsOk(h.arenas, h.live) && LivesOk(h.arenas, h.live)
  {
  }

  // ---------------------------------------------------------------
  // malloc: small blocks
  // ---------------------------------------------------------------

  /** What the front of a free list is. */
  lemma HeadBlock(h: Heap, d: nat)
    requires Base(h) && d < 7 && h.free[d] != []
    ensures var b := h.free[d][0];
            && IsSmall(h.arenas, b.page, d) && b.k < BlocksPerArena(d)
            && 0 < h.arenas[b.page].freeCnt <= BlocksPerArena(d)
            && Addr(b.page, d, b.k) !in h.live
  {
    hide ArenasOk, LivesOk, BigsOk;
    var list := h.free[d];
    var b := list[0];
    assert ListOk(h.arenas, list, d) && b in list && BlockOf(h.arenas, d, b);
    assert IsSmall(h.arenas, b.page, d) && SmallOk(h.arenas[b.page], list, h.live, b.page, d);
    assert b == Blk(b.page, b.k);
    assert b.k in FreeIdx(list, b.page);
    IndexBound(h.arenas, list, b.page, d);
  }

  lemma TakeKeepsLists(h: Heap, d: nat)
    requires |h.free| == 7 && ListsOk(h.arenas, h.free) && d < 7 && h.free[d] != []
    requires IsSmall(h.arenas, h.free[d][0].page, d)
    ensures forall n: nat :: ListsOk(h.arenas[h.free[d][0].page := Arena(Some(d), n)], h.free[d := h.free[d][1..]])
  {
    var list := h.free[d];
    var free' := h.free[d := list[1..]];
    assert list == [list[0]] + list[1..];
    assert ListOk(h.arenas, list, d);
    TailNoRepeats(list[0], list[1..]);
    forall n: nat, e | 0 <= e < 7
      ensures ListOk(h.arenas[list[0].page := Arena(Some(d), n)], free'[e], e)
    {
      assert ListOk(h.arenas, h.free[e], e);
    }
  }

  lemma TakeKeepsSmalls(h: Heap, d: nat, size: nat)
    requires Base(h) && d < 7 && h.free[d] != []
    requires h.free[d][0].k < BlocksPerArena(d) && IsSmall(h.arenas, h.free[d][0].page, d)
    requires h.arenas[h.free[d][0].page].freeCnt > 0
    ensures var b := h.free[d][0];
            SmallsOk(h.arenas[b.page := Arena(Some(d), h.arenas[b.page].freeCnt - 1)], h.free[d := h.free[d][1..]],
                     h.live[Addr(b.page, d, b.k) := size])
  {
    hide ArenasOk, LivesOk, BigsOk, SmallOk, ListOk;
    var list := h.free[d];
    var b := list[0];
    var rest := list[1..];
    var x := Addr(b.page, d, b.k);
    var arenas' := h.arenas[b.page := Arena(Some(d), h.arenas[b.page].freeCnt - 1)];
    var free', live' := h.free[d := rest], h.live[x := size];
    assert list == [b] + rest;
    assert ListOk(h.arenas, list, d);
    BlockPlace(b.page, d, b.k);
    forall q, e | 0 <= e < 7 && IsSmall(arenas', q, e)
      ensures SmallOk(arenas'[q], free'[e], live', q, e)
    {
      assert IsSmall(h.arenas, q, e);
      if q == b.page {
        SmallAfterTake(h.arenas, h.arenas[q], list, h.live, d, size);
      } else {
        forall k: nat ensures e == d ==> (Blk(q, k) in list <==> Blk(q, k) in rest) {}
        SmallElsewhere(h.arenas[q], h.free[e], free'[e], h.live, live', q, e);
      }
    }
  }

  lemma SmallAfterTake(arenas: map<nat, Arena>, a: Arena, list: seq<Blk>, live: map<nat, nat>, d: nat, size: nat)
    requires d < 7 && list != [] && list[0].k < BlocksPerArena(d) && ListOk(arenas, list, d)
    requires SmallOk(a, list, live, list[0].page, d) && a.freeCnt > 0
    ensures SmallOk(a.(freeCnt := a.freeCnt - 1), list[1..], live[Addr(list[0].page, d, list[0].k) := size],
            list[0].page, d)
  {
    var b, rest := list[0], list[1..];
    assert list == [b] + rest;
    ConsFreeIdx(b, rest, b.page);
    forall k | 0 <= k < BlocksPerArena(d)
      ensures Addr(b.page, d, k) == Addr(b.page, d, b.k) <==> k == b.k
      ensures Blk(b.page, k) in rest <==> Blk(b.page, k) in list && k != b.k
    {
      if k != b.k { BlocksApart(b.page, b.page, d, d, k, b.k); }
    }
  }

  lemma LiveAdded(arenas: map<nat, Arena>, arenas': map<nat, Arena>, live: map<nat, nat>, p: nat, d: nat, k: nat,
                  size: nat)
    requires LivesOk(arenas, live) && d < 7 && k < BlocksPerArena(d) && 0 < size <= BlockSize(d)
    requires IsSmall(arenas, p, d) && exists n :: arenas' == arenas[p := Arena(Some(d), n)]
    ensures LivesOk(arenas', live[Addr(p, d, k) := size])
  {
    BlockPlace(p, d, k);
    var x := Addr(p, d, k);
    var live' := live[x := size];
    forall a | a in live'
      ensures LiveOk(arenas', a, live'[a])
    {
      if a != x { assert LiveOk(arenas, a, live[a]); }
    }
  }

  /** Taking the first block of a free list. */
  lemma TakeKeeps(h: Heap, d: nat, size: nat)
    requires Base(h) && d < 7 && h.free[d] != [] && 0 < size <= BlockSize(d)
    ensures var b := h.free[d][0];
            var (h', r) := TakeBlock(h, d, size);
            && Base(h') && r == Some(Addr(b.page, d, b.k)) && r.value !in h.live
            && h'.live == h.live[r.value := size] && h'.mem == h.mem && h'.used == h.used
            && IsSmall(h.arenas, b.page, d) && 0 < h.arenas[b.page].freeCnt <= BlocksPerArena(d)
            && h'.arenas == h.arenas[b.page := Arena(Some(d), h.arenas[b.page].freeCnt - 1)]
  {
    hide ArenasOk, ListsOk, SmallsOk, LivesOk, Addr;
    var list := h.free[d];
    var b := list[0];
    HeadBlock(h, d);
    var a := h.arenas[b.page];
    var (h', r) := TakeBlock(h, d, size);
    assert h'.arenas == h.arenas[b.page := Arena(Some(d), a.freeCnt - 1)];
    RecountArenas(h.used, h.arenas, b.page, Arena(Some(d), a.freeCnt - 1));
    TakeKeepsLists(h, d);
    TakeKeepsSmalls(h, d, size);
    LiveAdded(h.arenas, h'.arenas, h.live, b.page, d, b.k, size);
  }
}
