/** What callers of malloc, free and realloc may rely on, over any run. */
module HeapTheorems {
  import opened Options
  import opened Bitmap
  import opened Bytes
  import opened HeapModel
  import opened HeapInvariant
  import opened HeapRuns

  /** All sizes but the eleven for which malloc's page count wraps round to one. */
  ghost predicate SizeFits(size: nat) { size < 0xFFFF_FFF5 }

  /** The bytes asked for at x read the same in mem. */
  ghost predicate SameBytes(h: Heap, x: nat, mem: seq<byte>)
    requires x in h.live
  {
    && |mem| == |h.mem| && x + h.live[x] <= |mem|
    && forall i: nat | x <= i < x + h.live[x] :: mem[i] == h.mem[i]
  }

  lemma KeptSame(h: Heap, a: nat, mem: seq<byte>, x: nat)
    requires Base(h) && OthersKept(h, a, mem) && x in h.live && x != a
    ensures SameBytes(h, x, mem)
  {
    hide Base, Room;
    LiveInside(h, x);
    forall i: nat | x <= i < x + h.live[x]
      ensures mem[i] == h.mem[i]
    {
      assert x <= i < x + Room(h, x) && i < |mem|;
    }
  }

  /** Writing inside one live block leaves the others as they were. */
  lemma WriteInside(h: Heap, a: nat, off: nat, w: seq<byte>)
    requires Base(h) && a in h.live
    requires a / 4096 in h.arenas && off + |w| <= Room(h, a)
    ensures a + off + |w| <= |h.mem| && OthersKept(h, a, Patch(h.mem, a + off, w))
  {
    hide Base, Room, Patch;
    LiveInside(h, a);
    var mem := Patch(h.mem, a + off, w);
    forall x: nat, i: nat | x in h.live && x != a && x / 4096 in h.arenas && x <= i < x + Room(h, x) && i < |mem|
      ensures mem[i] == h.mem[i]
    {
      LiveApart(h, x, a);
      PatchAt(h.mem, a + off, w, i);
    }
    assert |mem| == |h.mem|;
    assert OthersKept(h, a, mem);
  }

  lemma MemIsFree(h: Heap, mem: seq<byte>)
    requires Inv(h) && |mem| == |h.mem|
    ensures Inv(h.(mem := mem)) && Base(h.(mem := mem))
  {
  }

  /** The block that malloc gives for a 32-bit size has room for that many bytes if and only if the
      size is below 0xFFFFFFF5. */
  lemma MallocRoom(h: Heap, size: nat)
    requires Inv(h) && size < 0x1_0000_0000
    ensures |h.free| == 7
    ensures var (h', r) := Malloc(h, size);
            r.Some? ==> r.value / 4096 in h'.arenas && (Room(h', r.value) >= size <==> size < 0xFFFF_FFF5)
  {
    hide Inv, Base, NoneFreeBut, SetRun, FirstRun, Refill, TakeBlock;
    InvIsBase(h);
    match DescFor(size)
    case None => PagesForSize(size);
    case Some(d) =>
      if size > 0 {
        RefillKeeps(h, d);
        if Refill(h, d).1 { BlockRoom(Refill(h, d).0, d, size); }
      }
  }

  lemma BlockRoom(h: Heap, d: nat, size: nat)
    requires Base(h) && d < 7 && |h.free| == 7 && h.free[d] != []
    ensures var (h', r) := TakeBlock(h, d, size);
            r.Some? && r.value / 4096 in h'.arenas && Room(h', r.value) == BlockSize(d)
  {
    hide Base, Addr;
    HeadBlock(h, d);
    BlockPlace(h.free[d][0].page, d, h.free[d][0].k);
  }

  /** On a fresh heap of one page a request for 4294967295 bytes succeeds, with 4084 of them. */
  lemma WrappedRequestExample(mem: seq<byte>)
    requires |mem| == 4096
    ensures var h := Initial([false], mem);
            && |h.free| == 7 && Inv(h)
            && var (h', r) := Malloc(h, 0xFFFF_FFFF);
               r == Some(12) && 0 in h'.arenas && Room(h', 12) == 4084
  {
    var h := Initial([false], mem);
    InitialInv([false], mem);
    PagesForSize(0xFFFF_FFFF);
    assert PagesFor(0xFFFF_FFFF) == 1;
    assert RunOf(h.used, 0, 1, false);
  }

  /** The size class has no free block and no page is free, or a big block's page count wraps to none or
      no run of free pages is long enough for it. */
  ghost predicate NothingFor(h: Heap, size: nat)
    requires |h.free| == 7 && SizeFits(size)
  {
    match DescFor(size)
    case Some(d) => h.free[d] == [] && forall q: nat | q < |h.used| :: h.used[q]
    case None => 0xFFFF_EFF5 <= size || forall p: nat :: !RunOf(h.used, p, PagesFor(size), false)
  }

  /** malloc fails exactly when there is nothing for it. */
  lemma MallocFails(h: Heap, size: nat)
    requires Inv(h) && SizeFits(size) && size > 0
    ensures |h.free| == 7
    ensures Malloc(h, size).1.None? <==> NothingFor(h, size)
  {
    hide Inv, Base, NoneFreeBut, SetRun, FirstRun, RunOf;
    InvIsBase(h);
    match DescFor(size)
    case None => PagesForSize(size);
    case Some(d) =>
      RefillKeeps(h, d);
      OnePage(h.used);
      if Refill(h, d).1 {
        hide Refill;
        TakeKeeps(Refill(h, d).0, d, size);
      }
  }

  lemma OnePage(used: seq<bool>)
    ensures (forall p: nat :: !RunOf(used, p, 1, false)) <==> (forall q: nat | q < |used| :: used[q])
  {
    if q: nat :| q < |used| && !used[q] {
      assert RunOf(used, q, 1, false);
    }
    if p: nat :| RunOf(used, p, 1, false) {
      assert !used[p];
    }
  }

  // ---------------------------------------------------------------
  // free undone by malloc
  // ---------------------------------------------------------------

  /** A small block given back to an arena that stays is the next one of its class to be handed out,
      and then the allocator is as it was but for the block's bytes. */
  lemma FreeThenMalloc(h: Heap, a: nat, d: nat, size: nat)
    requires Inv(h) && a in h.live && size > 0 && DescFor(size) == Some(d)
    requires a / 4096 in h.arenas && h.arenas[a / 4096].desc == Some(d)
    requires h.arenas[a / 4096].freeCnt + 1 < BlocksPerArena(d)
    ensures |h.free| == 7 && |Free(h, a).free| == 7
    ensures var (h', r) := Malloc(Free(h, a), size);
            r == Some(a) && h' == h.(mem := h'.mem, live := h.live[a := size])
  {
    hide ArenasOk, ListsOk, SmallsOk, BigsOk, NoneFreeBut, BlocksPerArena, BlockSize, Fill, BlockIndex, Addr;
    SmallPlace(h, a, d);
    var p, b, h1 := a / 4096, Blk(a / 4096, BlockIndex(a, d)), Free(h, a);
    assert h1.free[d] == [b] + h.free[d] && h1.free[d][1..] == h.free[d];
    assert h1.arenas[p].(freeCnt := h.arenas[p].freeCnt) == h.arenas[p];
    assert (h.live - {a})[a := size] == h.live[a := size];
  }

  lemma SmallPlace(h: Heap, a: nat, d: nat)
    requires Inv(h) && a in h.live && d < 7
    requires a / 4096 in h.arenas && h.arenas[a / 4096].desc == Some(d)
    ensures |h.free| == 7 && ValidBlock(h, a) && Addr(a / 4096, d, BlockIndex(a, d)) == a
  {
    hide ArenasOk, ListsOk, SmallsOk, BigsOk, NoneFreeBut, Addr;
    assert LiveOk(h.arenas, a, h.live[a]);
    var k :| 0 <= k < BlocksPerArena(d) && a == Addr(a / 4096, d, k);
    BlockPlace(a / 4096, d, k);
  }

  // ---------------------------------------------------------------
  // realloc
  // ---------------------------------------------------------------

  /** n bytes at a in mem are found at b in mem'. */
  ghost predicate Moved(mem: seq<byte>, a: nat, mem': seq<byte>, b: nat, n: nat) {
    a + n <= |mem| && b + n <= |mem'| && mem'[b..b + n] == mem[a..a + n]
  }

  ghost function GivenUp(p: Option<nat>): set<nat> {
    if p.Some? then {p.value} else {}
  }

  /** realloc keeps the invariant; a failure changes nothing; a success moves the common prefix to
      a block no caller holds and gives the old one up; every other block keeps its bytes. */
  lemma ReallocKeeps(h: Heap, p: Option<nat>, size: nat)
    requires Inv(h) && SizeFits(size) && (p.Some? ==> p.value in h.live)
    ensures |h.free| == 7
    ensures var (h', r) := Realloc(h, p, size);
            && Inv(h')
            && (size == 0 ==> r.None? && h'.live == h.live - GivenUp(p))
            && (size > 0 && r.None? ==> h'.live == h.live && h'.mem == h.mem)
            && (r.Some? ==> size > 0 && r.value !in h.live && h'.live == (h.live - GivenUp(p))[r.value := size])
            && (r.Some? && p.Some? ==> Moved(h.mem, p.value, h'.mem, r.value, if size < h.live[p.value] then size
               else h.live[p.value]))
            && (forall x | x in h.live && p != Some(x) :: SameBytes(h, x, h'.mem))
  {
    hide *;
    NothingGivenUp(h.live);
    assert Base(h) && |h.free| == 7 by { InvIsBase(h); Parts(h); }
    if size == 0 {
      if p.Some? { ReallocToNothing(h, p.value); } else { assert p == None; ReallocOfNothing(h, size); }
    } else if p.None? {
      assert p == None;
      ReallocOfNothing(h, size);
    } else {
      ReallocMoves(h, p.value, size);
    }
  }

  /** realloc, of a held block too, gives a block exactly when the size is positive and there is something
      for it while the old block is still held. */
  lemma ReallocFails(h: Heap, p: Option<nat>, size: nat)
    requires Inv(h) && SizeFits(size) && (p.Some? ==> p.value in h.live)
    ensures |h.free| == 7
    ensures Realloc(h, p, size).1.None? <==> size == 0 || NothingFor(h, size)
  {
    hide Inv, Malloc, NothingFor, ValidBlock, Room, Free, Copy;
    if size > 0 { MallocFails(h, size); } else { InvIsBase(h); BaseParts(h); }
  }

  lemma BaseParts(h: Heap)
    requires Base(h)
    ensures |h.free| == 7
  {
  }

  lemma NothingGivenUp(live: map<nat, nat>)
    ensures live - GivenUp(None) == live
    ensures forall a: nat :: GivenUp(Some(a)) == {a}
  {
  }

  lemma ReallocToNothing(h: Heap, a: nat)
    requires Inv(h) && a in h.live
    ensures |h.free| == 7
    ensures var (h', r) := Realloc(h, Some(a), 0);
            && Inv(h') && r.None? && h'.live == h.live - {a}
            && forall x | x in h.live && x != a :: SameBytes(h, x, h'.mem)
  {
    hide Inv, Base, Free, OthersKept, SameBytes;
    FreeKeeps(h, a);
    InvIsBase(h);
    forall x | x in h.live && x != a
      ensures SameBytes(h, x, Free(h, a).mem)
    {
      KeptSame(h, a, Free(h, a).mem, x);
    }
  }

  lemma Untouched(h: Heap)
    requires Base(h)
    ensures forall x | x in h.live :: SameBytes(h, x, h.mem)
  {
    hide Base;
    forall x | x in h.live
      ensures SameBytes(h, x, h.mem)
    {
      LiveInside(h, x);
    }
  }

  lemma ReallocOfNothing(h: Heap, size: nat)
    requires Inv(h) && SizeFits(size)
    ensures |h.free| == 7
    ensures var (h', r) := Realloc(h, None, size);
            && Inv(h') && h'.mem == h.mem
            && (size == 0 ==> r.None?)
            && (r.None? ==> h'.live == h.live)
            && (r.Some? ==> size > 0 && r.value !in h.live && h'.live == h.live[r.value := size])
            && forall x | x in h.live :: SameBytes(h, x, h'.mem)
  {
    hide Inv, Base, Malloc, SameBytes;
    MallocKeeps(h, size);
    InvIsBase(h);
    Untouched(h);
  }

  lemma ReallocMoves(h: Heap, a: nat, size: nat)
    requires Inv(h) && size > 0 && SizeFits(size) && a in h.live
    ensures |h.free| == 7
    ensures var (h', r) := Realloc(h, Some(a), size);
            && Inv(h')
            && (r.None? ==> h'.live == h.live && h'.mem == h.mem)
            && (r.Some? ==> r.value !in h.live && h'.live == (h.live - {a})[r.value := size])
            && (r.Some? ==> Moved(h.mem, a, h'.mem, r.value, if size < h.live[a] then size else h.live[a]))
            && (forall x | x in h.live && x != a :: SameBytes(h, x, h'.mem))
  {
    hide Inv, Base, Malloc, Free, SameBytes, ValidBlock, Room, OthersKept, Copy, Moved;
    hide ArenasOk, ListsOk, SmallsOk, BigsOk, LivesOk, PageCount;
    MallocKeeps(h, size);
    InvIsBase(h);
    Untouched(h);
    var (h1, r) := Malloc(h, size);
    if r.Some? {
      var b := r.value;
      InvIsBase(h1);
      Parts(h1);
      LiveValid(h1, a);
      LiveInside(h1, a);
      LiveInside(h1, b);
      var n := if size < Room(h1, a) then size else Room(h1, a);
      var h2 := h1.(mem := Copy(h1.mem, b, a, n));
      MemIsFree(h1, h2.mem);
      FreeKeeps(h2, a);
      MoveKeeps(h, h1, h2, a, b, n, Free(h2, a).mem);
      assert (h.live[b := size]) - {a} == (h.live - {a})[b := size];
    }
  }

  /** What the copy into b and the release of a leave. */
  lemma MoveKeeps(h: Heap, h1: Heap, h2: Heap, a: nat, b: nat, n: nat, mem: seq<byte>)
    requires Base(h1) && Base(h2) && a in h.live && b !in h.live && a != b && b in h1.live
             && h1.live == h.live[b := h1.live[b]]
    requires b / 4096 in h1.arenas && n <= h1.live[b] <= Room(h1, b) && h.mem == h1.mem
    requires b + n <= |h1.mem| && a + n <= |h1.mem| && h2 == h1.(mem := Copy(h1.mem, b, a, n))
    requires OthersKept(h2, a, mem)
    ensures forall m: nat | m <= n :: Moved(h.mem, a, mem, b, m)
    ensures forall x | x in h.live && x != a :: SameBytes(h, x, mem)
  {
    hide *;
    MovedBytes(h1, h2, a, b, n, mem);
    forall x | x in h.live && x != a
      ensures SameBytes(h, x, mem)
    {
      OthersUnmoved(h, h1, h2, a, b, n, mem, x);
    }
  }

  /** After the copy and the release of a, block b holds the prefix. */
  lemma MovedBytes(h1: Heap, h2: Heap, a: nat, b: nat, n: nat, mem: seq<byte>)
    requires Base(h1) && Base(h2) && a in h1.live && b in h1.live && a != b
    requires b + n <= |h1.mem| && a + n <= |h1.mem| && h2 == h1.(mem := Copy(h1.mem, b, a, n))
    requires n <= h1.live[b] && OthersKept(h2, a, mem)
    ensures forall m: nat | m <= n :: Moved(h1.mem, a, mem, b, m)
  {
    hide Base, OthersKept;
    KeptSame(h2, a, mem, b);
    PatchReadBack(h1.mem, b, h1.mem[a..a + n]);
    SlicesAgree(mem, h2.mem, b, b + n);
    forall m: nat | m <= n
      ensures Moved(h1.mem, a, mem, b, m)
    {
      assert mem[b..b + m] == mem[b..b + n][..m];
      assert h1.mem[a..a + m] == h1.mem[a..a + n][..m];
    }
  }

  lemma OthersUnmoved(h: Heap, h1: Heap, h2: Heap, a: nat, b: nat, n: nat, mem: seq<byte>, x: nat)
    requires Base(h1) && Base(h2) && a in h1.live && b in h1.live && a != b
    requires b / 4096 in h1.arenas && n <= Room(h1, b)
    requires b + n <= |h1.mem| && a + n <= |h1.mem| && h2 == h1.(mem := Copy(h1.mem, b, a, n))
    requires OthersKept(h2, a, mem)
    requires h.mem == h1.mem && x in h.live && x in h1.live && h1.live[x] == h.live[x] && x != a && x != b
    ensures SameBytes(h, x, mem)
  {
    hide Base, Room, OthersKept, Patch;
    KeptSame(h2, a, mem, x);
    WriteInside(h1, b, 0, h1.mem[a..a + n]);
    KeptSame(h1, b, h2.mem, x);
  }

  // ---------------------------------------------------------------
  // Runs
  // ---------------------------------------------------------------

  /** What callers do: Store overwrites bytes of a block they hold. */
  datatype Op =
    | MallocOp(size: nat)
    | FreeOp(p: Option<nat>)
    | ReallocOp(p: Option<nat>, size: nat)
    | StoreOp(a: nat, off: nat, w: seq<byte>)

  /** Callers pass back only what they hold, stay inside what they asked for, and ask for sizes
      that malloc meets or refuses. */
  ghost predicate Legal(h: Heap, op: Op) {
    match op
    case MallocOp(size) => SizeFits(size)
    case FreeOp(p) => p.Some? ==> p.value in h.live
    case ReallocOp(p, size) => SizeFits(size) && (p.Some? ==> p.value in h.live)
    case StoreOp(a, off, w) => a in h.live && off + |w| <= h.live[a] && a + off + |w| <= |h.mem|
  }

  ghost function Do(h: Heap, op: Op): Heap
    requires |h.free| == 7 && Legal(h, op)
  {
    match op
    case MallocOp(size) => Malloc(h, size).0
    case FreeOp(p) => if p.None? then h else Free(h, p.value)
    case ReallocOp(p, size) => Realloc(h, p, size).0
    case StoreOp(a, off, w) => h.(mem := Patch(h.mem, a + off, w))
  }

  /** op writes to or gives up block a. */
  ghost predicate Touches(op: Op, a: nat) {
    match op
    case MallocOp(_) => false
    case FreeOp(p) => p == Some(a)
    case ReallocOp(p, _) => p == Some(a)
    case StoreOp(b, _, _) => b == a
  }

  /** Every operation keeps the invariant and every block it does not name. */
  lemma DoKeeps(h: Heap, op: Op)
    requires Inv(h) && Legal(h, op)
    ensures |h.free| == 7 && Inv(Do(h, op))
    ensures forall a | a in h.live && !Touches(op, a) ::
              a in Do(h, op).live && Do(h, op).live[a] == h.live[a] && SameBytes(h, a, Do(h, op).mem)
  {
    hide Inv, Base, Malloc, Free, Realloc, SameBytes, OthersKept, Room, Patch, Moved;
    InvIsBase(h);
    Untouched(h);
    match op {
      case MallocOp(size) => MallocKeeps(h, size);
      case FreeOp(p) =>
        if p.Some? { ReallocToNothing(h, p.value); FreeIsRealloc(h, p.value); }
      case ReallocOp(p, size) => ReallocKeeps(h, p, size);
      case StoreOp(a, off, w) =>
        StoreKeeps(h, a, off, w);
    }
  }

  lemma StoreKeeps(h: Heap, a: nat, off: nat, w: seq<byte>)
    requires Inv(h) && a in h.live && off + |w| <= h.live[a] && a + off + |w| <= |h.mem|
    ensures var mem := Patch(h.mem, a + off, w);
            Inv(h.(mem := mem)) && forall x | x in h.live && x != a :: SameBytes(h, x, mem)
  {
    hide *;
    InvIsBase(h);
    LiveInside(h, a);
    WriteInside(h, a, off, w);
    MemIsFree(h, Patch(h.mem, a + off, w));
    forall x | x in h.live && x != a
      ensures SameBytes(h, x, Patch(h.mem, a + off, w))
    {
      KeptSame(h, a, Patch(h.mem, a + off, w), x);
    }
  }

  lemma FreeIsRealloc(h: Heap, a: nat)
    requires |h.free| == 7
    ensures Realloc(h, Some(a), 0) == (Free(h, a), None)
  {
  }

  /** The heaps that runs of legal calls reach from malloc_init. */
  ghost predicate Reaches(h: Heap, ops: seq<Op>, h': Heap)
    decreases |ops|
  {
    if ops == [] then h == h'
    else |h.free| == 7 && Legal(h, ops[0]) && Reaches(Do(h, ops[0]), ops[1..], h')
  }

  lemma {:induction false} RunKeeps(h: Heap, ops: seq<Op>, h': Heap)
    requires Inv(h) && Reaches(h, ops, h')
    ensures Inv(h')
    decreases |ops|
  {
    if ops != [] {
      DoKeeps(h, ops[0]);
      RunKeeps(Do(h, ops[0]), ops[1..], h');
    }
  }

  /** After any legal run no assertion has failed, and blocks handed out and not yet given back are
      large enough, lie inside their arena past its header, and share no byte. */
  lemma BlocksAreSound(used: seq<bool>, mem: seq<byte>, ops: seq<Op>, h: Heap)
    requires |mem| == 4096 * |used| && Reaches(Initial(used, mem), ops, h)
    ensures !h.panicked
    ensures forall a: nat | a in h.live ::
              && a / 4096 in h.arenas && 4096 * (a / 4096) + 12 <= a && 0 < h.live[a] <= Room(h, a)
              && a + Room(h, a) <= 4096 * (a / 4096 + PageCount(h.arenas[a / 4096])) <= |h.mem|
    ensures forall a: nat, b: nat | a in h.live && b in h.live && a < b :: a + h.live[a] <= b
  {
    hide *;
    InitialInv(used, mem);
    RunKeeps(Initial(used, mem), ops, h);
    InvIsBase(h);
    Parts(h);
    forall a: nat | a in h.live
      ensures a / 4096 in h.arenas && 4096 * (a / 4096) + 12 <= a && 0 < h.live[a] <= Room(h, a)
      ensures a + Room(h, a) <= 4096 * (a / 4096 + PageCount(h.arenas[a / 4096])) <= |h.mem|
    {
      LiveInside(h, a);
    }
    forall a: nat, b: nat | a in h.live && b in h.live && a < b
      ensures a + h.live[a] <= b
    {
      LiveApart(h, a, b);
      LiveInside(h, b);
    }
  }

  /** After any legal run each small arena's counter is the number of its blocks on the free list
      and is below the number of its blocks, so wholly free pages have all gone back. */
  lemma CountersAgree(used: seq<bool>, mem: seq<byte>, ops: seq<Op>, h: Heap)
    requires |mem| == 4096 * |used| && Reaches(Initial(used, mem), ops, h)
    ensures |h.free| == 7
    ensures forall p: nat, d: nat | d < 7 && IsSmall(h.arenas, p, d) ::
              && h.arenas[p].freeCnt == |FreeIdx(h.free[d], p)| < BlocksPerArena(d)
              && (forall k | 0 <= k < BlocksPerArena(d) :: Blk(p, k) in h.free[d] <==> Addr(p, d, k) !in h.live)
  {
    hide ArenasOk, LivesOk, BigsOk, ListsOk, Reaches;
    InitialInv(used, mem);
    RunKeeps(Initial(used, mem), ops, h);
    forall p: nat, d: nat | d < 7 && IsSmall(h.arenas, p, d)
      ensures SmallOk(h.arenas[p], h.free[d], h.live, p, d) && h.arenas[p].freeCnt < BlocksPerArena(d)
    {
    }
  }

  /** A block keeps its size and bytes through any run that neither writes to it nor gives it up. */
  lemma {:induction false} BlockKeepsContent(h: Heap, ops: seq<Op>, h': Heap, a: nat)
    requires Inv(h) && Reaches(h, ops, h') && a in h.live
    requires forall i | 0 <= i < |ops| :: !Touches(ops[i], a)
    ensures a in h'.live && h'.live[a] == h.live[a] && SameBytes(h, a, h'.mem)
    decreases |ops|
  {
    hide Inv, Legal, Do;
    if ops == [] {
      InvIsBase(h);
      Untouched(h);
    } else {
      DoKeeps(h, ops[0]);
      BlockKeepsContent(Do(h, ops[0]), ops[1..], h', a);
    }
  }
}
