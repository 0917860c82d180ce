/** threads/malloc.c and threads/palloc.c as they run: the descriptors' free lists, the arena
    headers and the pool's bitmap changed in place. Each method is proved to take the step of
    the function that bears its name in HeapModel. */
module Malloc {
  import opened Lists
  import opened Options
  import opened Bitmap
  import opened Bytes
  import opened HeapModel
  import opened HeapInvariant
  import opened HeapRuns
  import opened HeapTheorems

  /** malloc_init: each descriptor's block size and number of blocks. */
  method MallocInit() returns (sizes: seq<nat>, counts: seq<nat>)
    ensures |sizes| == |counts| == 7
    ensures forall d | 0 <= d < 7 :: sizes[d] == BlockSize(d) && counts[d] == BlocksPerArena(d)
  {
    sizes, counts := [], [];
    var blockSize := 16;
    while blockSize < 4096 / 2
      invariant |sizes| == |counts| <= 7
      invariant blockSize == if |sizes| < 7 then BlockSize(|sizes|) else 2048
      invariant forall d | 0 <= d < |sizes| :: sizes[d] == BlockSize(d) && counts[d] == BlocksPerArena(d)
      decreases 2048 - blockSize
    {
      DescriptorTable(|sizes|);
      if |sizes| < 6 { DescriptorTable(|sizes| + 1); }
      sizes := sizes + [blockSize];
      counts := counts + [(4096 - 12) / blockSize];
      blockSize := blockSize * 2;
    }
  }

  // ---------------------------------------------------------------
  // Taking one arena's blocks off a list
  // ---------------------------------------------------------------

  /** list_remove. */
  function RemoveOne(list: seq<Blk>, b: Blk): seq<Blk> {
    if list == [] then [] else if list[0] == b then list[1..] else [list[0]] + RemoveOne(list[1..], b)
  }

  /** list without the first n blocks of page p. */
  ghost function WithoutFirst(list: seq<Blk>, p: nat, n: nat): (r: seq<Blk>) {
    if list == [] then []
    else if list[0].page == p && list[0].k < n then WithoutFirst(list[1..], p, n)
    else [list[0]] + WithoutFirst(list[1..], p, n)
  }

  lemma {:induction false} WithoutNone(list: seq<Blk>, p: nat)
    ensures WithoutFirst(list, p, 0) == list
  {
    if list != [] { WithoutNone(list[1..], p); }
  }

  lemma {:induction false} WithoutOneMore(list: seq<Blk>, p: nat, n: nat)
    requires NoRepeats(list)
    ensures RemoveOne(WithoutFirst(list, p, n), Blk(p, n)) == WithoutFirst(list, p, n + 1)
    ensures Blk(p, n) !in list ==> WithoutFirst(list, p, n) == WithoutFirst(list, p, n + 1)
  {
    if list != [] {
      assert list == [list[0]] + list[1..];
      TailNoRepeats(list[0], list[1..]);
      WithoutOneMore(list[1..], p, n);
      if list[0] != Blk(p, n) && !(list[0].page == p && list[0].k < n) {
        var rest := WithoutFirst(list[1..], p, n);
        assert ([list[0]] + rest)[1..] == rest;
      } else if list[0] == Blk(p, n) {
        var rest := WithoutFirst(list[1..], p, n);
        assert ([list[0]] + rest)[1..] == rest;
      }
    }
  }

  lemma {:induction false} WithoutAll(list: seq<Blk>, p: nat, n: nat)
    requires forall b | b in list && b.page == p :: b.k < n
    ensures WithoutFirst(list, p, n) == WithoutPage(list, p)
  {
    if list != [] { WithoutAll(list[1..], p, n); }
  }

  class Allocator {
    const pool: Bitmap
    const mem: array<byte>
    const blockSize: seq<nat>
    const blocksPerArena: seq<nat>
    var arenas: map<nat, Arena>
    var lists: seq<seq<Blk>>
    var panicked: bool
    ghost var live: map<nat, nat>

    ghost predicate Shape()
      reads this
    {
      && |blockSize| == |blocksPerArena| == |lists| == 7
      && forall d | 0 <= d < 7 :: blockSize[d] == BlockSize(d) && blocksPerArena[d] == BlocksPerArena(d)
    }

    ghost function State(): Heap
      reads this, pool, pool.bits, mem
    {
      Heap(pool.bits[..], arenas, lists, mem[..], live, panicked)
    }

    constructor (pool: Bitmap, mem: array<byte>)
      ensures this.pool == pool && this.mem == mem && Shape()
      ensures State() == Initial(pool.bits[..], mem[..])
    {
      var sizes, counts := MallocInit();
      this.pool, this.mem, blockSize, blocksPerArena := pool, mem, sizes, counts;
      arenas, lists, live, panicked := map[], [[], [], [], [], [], [], []], map[], false;
    }

    // palloc.c

    method PallocGetMultiple(cnt: nat) returns (p: Option<nat>)
      modifies pool.bits
      ensures (State(), p) == PallocGet(old(State()), cnt)
    {
      if cnt == 0 {
        return None;
      }
      p := pool.ScanAndFlip(0, cnt, false);
    }

    method MemSet(at: nat, n: nat, value: byte)
      requires at + n <= mem.Length
      modifies mem
      ensures mem[..] == Fill(old(mem[..]), at, n, value)
    {
      ghost var was := mem[..];
      var i := 0;
      while i < n
        invariant 0 <= i <= n
        invariant forall j | 0 <= j < mem.Length :: mem[j] == if at <= j < at + i then value else was[j]
      {
        mem[at + i] := value;
        i := i + 1;
      }
      forall j | 0 <= j < mem.Length
        ensures mem[j] == Fill(was, at, n, value)[j]
      {
        FillAt(was, at, n, value, j);
      }
    }

    method PallocFreeMultiple(p: nat, cnt: nat)
      requires RunOf(pool.bits[..], p, cnt, true) && 4096 * (p + cnt) <= mem.Length && mem != pool.bits as object
      modifies mem, pool.bits
      ensures State() == PallocFree(old(State()), p, cnt)
    {
      if cnt == 0 {
        return;
      }
      MemSet(4096 * p, 4096 * cnt, 0xcc);
      var all := pool.All(p, cnt);
      assert all;
      pool.SetMultiple(p, cnt, false);
    }

    // malloc.c

    /** The search for the smallest descriptor that fits. */
    method FindDesc(size: nat) returns (d: nat)
      requires Shape() && size > 0
      ensures d == if DescFor(size).Some? then DescFor(size).value else 7
    {
      d := 0;
      while d < 7
        invariant 0 <= d <= 7
        invariant forall e | 0 <= e < d :: BlockSize(e) < size
      {
        if blockSize[d] >= size { break; }
        d := d + 1;
      }
      SmallestIs(size, d);
    }

    static lemma SmallestIs(size: nat, d: nat)
      requires d <= 7 && (forall e | 0 <= e < d :: BlockSize(e) < size) && (d < 7 ==> size <= BlockSize(d))
      ensures d == if DescFor(size).Some? then DescFor(size).value else 7
    {
    }

    method MallocLarge(size: nat) returns (r: Option<nat>)
      modifies this`arenas, this`live, pool.bits
      ensures (State(), r) == MallocBig(old(State()), size)
    {
      var pageCnt := (size + 12 + 4095) % 0x1_0000_0000 / 4096;
      var a := PallocGetMultiple(pageCnt);
      if a.None? {
        return None;
      }
      arenas := arenas[a.value := Arena(None, pageCnt)];
      live := live[4096 * a.value + 12 := size];
      r := Some(4096 * a.value + 12);
    }

    /** The part that makes a new arena and lists its blocks. */
    method NewArena(d: nat) returns (ok: bool)
      requires Shape() && d < 7
      modifies this`arenas, this`lists, pool.bits
      ensures Shape() && (State(), ok) == Refill(old(State()), d)
    {
      if lists[d] != [] {
        return true;
      }
      var a := PallocGetMultiple(1);
      if a.None? {
        return false;
      }
      ghost var h1 := State();
      var p, n := a.value, blocksPerArena[d];
      arenas := arenas[p := Arena(Some(d), n)];
      ghost var was := lists;
      var i := 0;
      assert was == was[d := AllBlocks(p, 0)];
      while i < n
        modifies this`lists
        invariant 0 <= i <= n && |lists| == 7
        invariant lists == was[d := AllBlocks(p, i)]
      {
        assert AllBlocks(p, i) + [Blk(p, i)] == AllBlocks(p, i + 1);
        lists := lists[d := lists[d] + [Blk(p, i)]];
        i := i + 1;
      }
      assert h1.free[d] + AllBlocks(p, n) == AllBlocks(p, n);
      assert State().used == h1.used && State().mem == h1.mem;
      assert State() == h1.(arenas := h1.arenas[p := Arena(Some(d), n)],
             free := h1.free[d := h1.free[d] + AllBlocks(p, n)]);
      return true;
    }

    method Malloc(size: nat) returns (r: Option<nat>)
      requires Shape() && Inv(State()) && SizeFits(size)
      modifies this`arenas, this`lists, this`live, pool.bits
      ensures Shape() && (State(), r) == HeapModel.Malloc(old(State()), size)
      ensures Inv(State())
    {
      hide Inv, Refill, MallocBig, NoneFreeBut, Base;
      MallocKeeps(State(), size);
      if size == 0 {
        return None;
      }
      var d := FindDesc(size);
      if d == 7 {
        r := MallocLarge(size);
        return;
      }
      RefillKeeps(State(), d);
      var ok := NewArena(d);
      if !ok {
        return None;
      }
      HeadBlock(State(), d);
      var b := lists[d][0];
      var a := arenas[b.page];
      lists := lists[d := lists[d][1..]];
      arenas := arenas[b.page := a.(freeCnt := a.freeCnt - 1)];
      live := live[Addr(b.page, d, b.k) := size];
      r := Some(4096 * b.page + 12 + b.k * blockSize[d]);
    }

    /** The loop of free that unlinks a wholly free arena's blocks. */
    method UnlinkBlocks(d: nat, p: nat)
      requires Shape() && d < 7 && ListOk(arenas, lists[d], d) && IsSmall(arenas, p, d)
      modifies this`lists
      ensures lists == old(lists)[d := WithoutPage(old(lists[d]), p)]
    {
      ghost var was := lists;
      var i := 0;
      WithoutNone(was[d], p);
      assert was == was[d := was[d]];
      while i < blocksPerArena[d]
        invariant 0 <= i <= blocksPerArena[d] && |lists| == 7
        invariant lists == was[d := WithoutFirst(was[d], p, i)]
      {
        WithoutOneMore(was[d], p, i);
        lists := lists[d := RemoveOne(lists[d], Blk(p, i))];
        i := i + 1;
      }
      forall b | b in was[d] && b.page == p
        ensures b.k < blocksPerArena[d]
      {
        assert BlockOf(arenas, d, b);
      }
      WithoutAll(was[d], p, blocksPerArena[d]);
    }

    method FreeSmallBlock(a: nat, d: nat)
      requires Shape() && Inv(State()) && a in live && d < 7 && IsSmall(arenas, a / 4096, d)
               && mem != pool.bits as object
      modifies this`arenas, this`lists, this`live, mem, pool.bits
      ensures Shape() && State() == FreeSmall(old(State()), a, d)
    {
      hide Inv, Base, NoneFreeBut, WithoutPage, Fill, PallocFree, Addr, Room, BlockIndex, ListOk;
      hide ArenasOk, ListsOk, SmallsOk, BigsOk, LivesOk;
      ghost var h := State();
      FreeSmallFacts(h, a, d);
      MemSet(a, blockSize[d], 0xcc);
      var p: nat := a / 4096;
      var b := Blk(p, (a % 4096 - 12) / blockSize[d]);
      ghost var h1 := Put(h, d, b, mem[..]);
      PutKeeps(h, d, b, mem[..]);
      lists := lists[d := [b] + lists[d]];
      arenas := arenas[p := arenas[p].(freeCnt := arenas[p].freeCnt + 1)];
      live := live - {a};
      assert State() == h1;
      if arenas[p].freeCnt >= blocksPerArena[d] {
        ListPart(h1, d);
        Parts(h1);
        FreePages(h1, p, 1);
        UnlinkBlocks(d, p);
        arenas := arenas - {p};
        PallocFreeMultiple(p, 1);
      }
    }

    static lemma FreeSmallFacts(h: Heap, a: nat, d: nat)
      requires Inv(h) && a in h.live && d < 7 && IsSmall(h.arenas, a / 4096, d)
      ensures Base(h) && |h.free| == 7 && a % 4096 >= 12 && a + BlockSize(d) <= |h.mem|
      ensures BlockIndex(a, d) == (a % 4096 - 12) / BlockSize(d) >= 0
      ensures BlockIndex(a, d) < BlocksPerArena(d) && a == Addr(a / 4096, d, BlockIndex(a, d))
    {
      hide Inv, Base, Addr, Room;
      InvIsBase(h);
      Parts(h);
      LiveSmall(h, a, d);
      LiveInside(h, a);
      RoomOfSmall(h, a, d);
      IndexIs(a, d);
    }

    static lemma IndexIs(a: nat, d: nat)
      requires a % 4096 >= 12
      ensures BlockIndex(a, d) == (a % 4096 - 12) / BlockSize(d) >= 0
    {
    }

    static lemma ListPart(h: Heap, d: nat)
      requires Base(h) && d < 7
      ensures ListOk(h.arenas, h.free[d], d)
    {
    }

    method Free(p: Option<nat>)
      requires Shape() && Inv(State()) && (p.Some? ==> p.value in live) && mem != pool.bits as object
      modifies this`arenas, this`lists, this`live, mem, pool.bits
      ensures Shape() && Inv(State())
      ensures State() == if p.Some? then HeapModel.Free(old(State()), p.value) else old(State())
    {
      hide Inv, Base, NoneFreeBut, FreeSmall, PallocFree, OthersKept, Room;
      hide ListsOk, SmallsOk, BigsOk, LivesOk;
      if p.None? {
        return;
      }
      var a := p.value;
      ghost var h := State();
      InvIsBase(h);
      Parts(h);
      LiveValid(h, a);
      FreeKeeps(h, a);
      DescBound(h, a / 4096);
      var arena := arenas[a / 4096];
      match arena.desc {
        case None =>
          FreePages(h, a / 4096, arena.freeCnt);
          arenas := arenas - {a / 4096};
          live := live - {a};
          PallocFreeMultiple(a / 4096, arena.freeCnt);
        case Some(d) =>
          FreeSmallBlock(a, d);
      }
    }

    /** memcpy between stretches that do not meet. */
    method MemCopy(to: nat, from: nat, n: nat)
      requires to + n <= mem.Length && from + n <= mem.Length
      requires to + n <= from || from + n <= to
      modifies mem
      ensures mem[..] == Copy(old(mem[..]), to, from, n)
    {
      ghost var was := mem[..];
      ghost var w := was[from..from + n];
      var i := 0;
      while i < n
        invariant 0 <= i <= n
        invariant forall j | 0 <= j < mem.Length :: mem[j] == if to <= j < to + i then w[j - to] else was[j]
      {
        assert mem[from + i] == was[from + i];
        mem[to + i] := mem[from + i];
        i := i + 1;
      }
      forall j | 0 <= j < mem.Length
        ensures mem[j] == Copy(was, to, from, n)[j]
      {
        PatchAt(was, to, w, j);
      }
    }

    /** block_size. */
    method RoomIn(a: nat) returns (n: nat)
      requires Shape() && Base(State()) && a in live
      ensures a / 4096 in arenas && n == Room(State(), a)
    {
      hide Base, ArenasOk, ListsOk, SmallsOk, BigsOk, LivesOk;
      Parts(State());
      LiveValid(State(), a);
      LiveInside(State(), a);
      DescBound(State(), a / 4096);
      var arena := arenas[a / 4096];
      match arena.desc {
        case Some(d) => n := blockSize[d];
        case None => n := 4096 * arena.freeCnt - a % 4096;
      }
    }

    method Realloc(p: Option<nat>, size: nat) returns (r: Option<nat>)
      requires Shape() && Inv(State()) && SizeFits(size) && (p.Some? ==> p.value in live) && mem != pool.bits as object
      modifies this`arenas, this`lists, this`live, mem, pool.bits
      ensures Shape() && Inv(State())
      ensures (State(), r) == HeapModel.Realloc(old(State()), p, size)
    {
      hide Inv, Base, NoneFreeBut, HeapModel.Malloc, HeapModel.Free, Copy, ValidBlock, Room, SameBytes, Moved;
      hide ArenasOk, ListsOk, SmallsOk, BigsOk, LivesOk;
      ghost var h := State();
      if size == 0 {
        Free(p);
        return None;
      }
      MallocKeeps(h, size);
      r := Malloc(size);
      if p.Some? && r.Some? {
        ghost var h1 := State();
        InvIsBase(h1);
        Parts(h1);
        LiveValid(h1, p.value);
        LiveInside(h1, p.value);
        LiveInside(h1, r.value);
        LiveApart(h1, p.value, r.value);
        var room := RoomIn(p.value);
        var n := if size < room then size else room;
        MemCopy(r.value, p.value, n);
        MemIsFree(h1, mem[..]);
        assert State() == h1.(mem := Copy(h1.mem, r.value, p.value, n));
        Free(p);
      }
    }
  }
}
