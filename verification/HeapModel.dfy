/** The block allocator over the page allocator (threads/malloc.c, threads/palloc.c) as
    functions on a value. Addresses are offsets from the base of the kernel pool, which is
    page aligned; None stands for the null pointer. A failed ASSERT sets panicked. */
module HeapModel {
  import opened Options
  import opened Bitmap
  import opened Bytes

  /** A block of a small arena: its page and its index there. */
  datatype Blk = Blk(page: nat, k: nat)

  /** An arena header; desc is None for a big block, and then freeCnt counts its pages. */
  datatype Arena = Arena(desc: Option<nat>, freeCnt: nat)

  /** used is the pool's bitmap, free the free list of each descriptor. live is history: the
      size asked for of each block handed out and not freed. */
  datatype Heap = Heap(used: seq<bool>, arenas: map<nat, Arena>, free: seq<seq<Blk>>, mem: seq<byte>,
                       live: map<nat, nat>, panicked: bool)

  // ---------------------------------------------------------------
  // malloc_init: the seven descriptors, and where their blocks lie
  // ---------------------------------------------------------------

  /** The sizes that the loop of malloc_init doubles through below half a page. */
  function BlockSize(d: nat): (s: nat)
    ensures 16 <= s <= 1024
  {
    match d
    case 0 => 16
    case 1 => 32
    case 2 => 64
    case 3 => 128
    case 4 => 256
    case 5 => 512
    case _ => 1024
  }

  /** (PGSIZE - sizeof (struct arena)) / block_size. */
  function BlocksPerArena(d: nat): (n: nat)
    ensures 3 <= n <= 255
  {
    match d
    case 0 => 255
    case 1 => 127
    case 2 => 63
    case 3 => 31
    case 4 => 15
    case 5 => 7
    case _ => 3
  }

  lemma DescriptorTable(d: nat)
    requires d < 7
    ensures BlocksPerArena(d) == (4096 - 12) / BlockSize(d)
    ensures BlockSize(0) == 16 && (d > 0 ==> BlockSize(d) == 2 * BlockSize(d - 1)) && (BlockSize(d) < 2048)
    ensures d == 6 ==> !(2 * BlockSize(d) < 2048)
  {
  }

  /** arena_to_block. */
  function Addr(p: nat, d: nat, k: nat): nat { 4096 * p + 12 + k * BlockSize(d) }

  /** block_to_arena finds the arena of a block, and its alignment assertion holds. */
  lemma BlockPlace(p: nat, d: nat, k: nat)
    requires d < 7 && k < BlocksPerArena(d)
    ensures Addr(p, d, k) / 4096 == p && Addr(p, d, k) % 4096 >= 12
    ensures (Addr(p, d, k) % 4096 - 12) % BlockSize(d) == 0
    ensures (Addr(p, d, k) % 4096 - 12) / BlockSize(d) == k
    ensures Addr(p, d, k) % 4096 + BlockSize(d) <= 4096
  {
    match d
    case 0 =>
    case 1 =>
    case 2 =>
    case 3 =>
    case 4 =>
    case 5 =>
    case _ =>
  }

  /** Different blocks of a size class share no byte. */
  lemma BlocksApart(p: nat, q: nat, d: nat, e: nat, j: nat, k: nat)
    requires d < 7 && e < 7 && j < BlocksPerArena(d) && k < BlocksPerArena(e)
    requires p != q || (d == e && j != k)
    ensures Addr(p, d, j) + BlockSize(d) <= Addr(q, e, k) || Addr(q, e, k) + BlockSize(e) <= Addr(p, d, j)
  {
    BlockPlace(p, d, j);
    BlockPlace(q, e, k);
    if p == q {
      IndexesApart(d, j, k);
    }
  }

  lemma IndexesApart(d: nat, j: nat, k: nat)
    requires d < 7 && j != k
    ensures j * BlockSize(d) + BlockSize(d) <= k * BlockSize(d) || k * BlockSize(d) + BlockSize(d) <= j * BlockSize(d)
  {
    match d
    case 0 =>
    case 1 =>
    case 2 =>
    case 3 =>
    case 4 =>
    case 5 =>
    case _ =>
  }

  /** The smallest descriptor for size bytes. */
  function DescFor(size: nat): (d: Option<nat>)
    ensures d.Some? ==> d.value < 7 && size <= BlockSize(d.value) && forall e | 0 <= e < d.value :: BlockSize(e) < size
    ensures d.None? <==> size > 1024
  {
    if size <= 16 then Some(0) else if size <= 32 then Some(1) else if size <= 64 then Some(2)
    else if size <= 128 then Some(3) else if size <= 256 then Some(4) else if size <= 512 then Some(5)
    else if size <= 1024 then Some(6) else None
  }

  /** DIV_ROUND_UP (size + sizeof *a, PGSIZE) in 32-bit arithmetic. */
  function PagesFor(size: nat): nat { (size + 12 + 4095) % 0x1_0000_0000 / 4096 }

  /** Where the sum wraps: the 4096 sizes from 0xFFFFEFF5 ask for no page at all, and the eleven
      above them for one. */
  lemma PagesForSize(size: nat)
    requires 1024 < size < 0x1_0000_0000
    ensures PagesFor(size) == 0 <==> 0xFFFF_EFF5 <= size < 0xFFFF_FFF5
    ensures PagesFor(size) > 0 ==> (PagesFor(size) * 4096 - 12 >= size <==> size < 0xFFFF_FFF5)
  {
  }

  // ---------------------------------------------------------------
  // palloc.c
  // ---------------------------------------------------------------

  /** palloc_get_multiple on the kernel pool. */
  ghost function PallocGet(h: Heap, cnt: nat): (Heap, Option<nat>) {
    if cnt == 0 then (h, None)
    else match FirstRun(h.used, 0, cnt, false)
      case None => (h, None)
      case Some(p) => (h.(used := SetRun(h.used, p, cnt, true)), Some(p))
  }

  /** n bytes of memory set to value. */
  ghost function Fill(mem: seq<byte>, at: nat, n: nat, value: byte): (r: seq<byte>)
    requires at + n <= |mem|
    ensures |r| == |mem|
  {
    Patch(mem, at, seq(n, _ => value))
  }

  lemma FillAt(mem: seq<byte>, at: nat, n: nat, value: byte, i: nat)
    requires at + n <= |mem| && i < |mem|
    ensures Fill(mem, at, n, value)[i] == if at <= i < at + n then value else mem[i]
  {
  }

  /** palloc_free_multiple: clears the pages, and asserts that they were in use. */
  ghost function PallocFree(h: Heap, p: nat, cnt: nat): Heap {
    if cnt == 0 then h
    else if RunOf(h.used, p, cnt, true) && 4096 * (p + cnt) <= |h.mem|
    then h.(used := SetRun(h.used, p, cnt, false), mem := Fill(h.mem, 4096 * p, 4096 * cnt, 0xcc))
    else h.(panicked := true)
  }

  // ---------------------------------------------------------------
  // malloc
  // ---------------------------------------------------------------

  ghost function AllBlocks(p: nat, n: nat): (r: seq<Blk>)
    ensures |r| == n && forall i | 0 <= i < n :: r[i] == Blk(p, i)
  {
    seq(n, i requires 0 <= i < n => Blk(p, i))
  }

  ghost function MallocBig(h: Heap, size: nat): (Heap, Option<nat>) {
    var cnt := PagesFor(size);
    match PallocGet(h, cnt)
    case (h1, None) => (h1, None)
    case (h1, Some(p)) =>
      (h1.(arenas := h1.arenas[p := Arena(None, cnt)], live := h1.live[4096 * p + 12 := size]), Some(4096 * p + 12))
  }

  /** An empty free list is refilled from a new arena. */
  ghost function Refill(h: Heap, d: nat): (Heap, bool)
    requires d < |h.free|
  {
    if h.free[d] != [] then (h, true)
    else match PallocGet(h, 1)
      case (h1, None) => (h1, false)
      case (h1, Some(p)) =>
        (h1.(arenas := h1.arenas[p := Arena(Some(d), BlocksPerArena(d))],
             free := h1.free[d := h1.free[d] + AllBlocks(p, BlocksPerArena(d))]), true)
  }

  /** The first free block of descriptor d is taken. */
  ghost function TakeBlock(h: Heap, d: nat, size: nat): (Heap, Option<nat>)
    requires d < |h.free|
  {
    if h.free[d] == [] then (h, None)
    else
      var b := h.free[d][0];
      if b.page !in h.arenas || h.arenas[b.page].freeCnt == 0 then (h.(panicked := true), None)
      else
        var a := h.arenas[b.page];
        (h.(free := h.free[d := h.free[d][1..]], arenas := h.arenas[b.page := a.(freeCnt := a.freeCnt - 1)],
            live := h.live[Addr(b.page, d, b.k) := size]), Some(Addr(b.page, d, b.k)))
  }

  ghost function Malloc(h: Heap, size: nat): (Heap, Option<nat>)
    requires |h.free| == 7
  {
    if size == 0 then (h, None)
    else match DescFor(size)
      case None => MallocBig(h, size)
      case Some(d) =>
        var (h1, ok) := Refill(h, d);
        if ok then TakeBlock(h1, d, size) else (h1, None)
  }

  // ---------------------------------------------------------------
  // free
  // ---------------------------------------------------------------

  /** block_to_arena's assertions for a pointer a. */
  ghost predicate ValidBlock(h: Heap, a: nat) {
    && a / 4096 in h.arenas
    && match h.arenas[a / 4096].desc
       case None => a % 4096 == 12
       case Some(d) => a % 4096 >= 12 && (a % 4096 - 12) % BlockSize(d) == 0
  }

  ghost function WithoutPage(list: seq<Blk>, p: nat): (r: seq<Blk>) {
    if list == [] then []
    else if list[0].page == p then WithoutPage(list[1..], p)
    else [list[0]] + WithoutPage(list[1..], p)
  }

  /** Which block of its arena the pointer a is. */
  ghost function BlockIndex(a: nat, d: nat): nat {
    if a % 4096 >= 12 then (a % 4096 - 12) / BlockSize(d) else 0
  }

  ghost function FreeSmall(h: Heap, a: nat, d: nat): Heap
    requires d < |h.free| && a / 4096 in h.arenas
  {
    var p := a / 4096;
    var b := Blk(p, BlockIndex(a, d));
    var arena := h.arenas[p].(freeCnt := h.arenas[p].freeCnt + 1);
    var mem := if a + BlockSize(d) <= |h.mem| then Fill(h.mem, a, BlockSize(d), 0xcc) else h.mem;
    var list := [b] + h.free[d];
    var h1 := h.(mem := mem, live := h.live - {a}, arenas := h.arenas[p := arena], free := h.free[d := list]);
    if arena.freeCnt >= BlocksPerArena(d) then
      PallocFree(h1.(panicked := h.panicked || arena.freeCnt != BlocksPerArena(d),
                     free := h1.free[d := WithoutPage(list, p)], arenas := h1.arenas - {p}), p, 1)
    else h1
  }

  ghost function Free(h: Heap, a: nat): Heap
    requires |h.free| == 7
  {
    if !ValidBlock(h, a) then h.(panicked := true)
    else match h.arenas[a / 4096].desc
      case None => PallocFree(h.(arenas := h.arenas - {a / 4096}, live := h.live - {a}), a / 4096,
          h.arenas[a / 4096].freeCnt)
      case Some(d) => if d < 7 then FreeSmall(h, a, d) else h.(panicked := true)
  }

  // ---------------------------------------------------------------
  // realloc
  // ---------------------------------------------------------------

  /** block_size: the room in a block. */
  ghost function Room(h: Heap, a: nat): nat
    requires a / 4096 in h.arenas
  {
    match h.arenas[a / 4096].desc
    case Some(d) => BlockSize(d)
    case None => if 4096 * h.arenas[a / 4096].freeCnt >= a % 4096 then 4096 * h.arenas[a / 4096].freeCnt - a % 4096
        else 0
  }

  /** memcpy of n bytes between blocks. */
  ghost function Copy(mem: seq<byte>, to: nat, from: nat, n: nat): (r: seq<byte>)
    requires to + n <= |mem| && from + n <= |mem|
    ensures |r| == |mem|
  {
    Patch(mem, to, mem[from..from + n])
  }

  ghost function Realloc(h: Heap, old_: Option<nat>, size: nat): (Heap, Option<nat>)
    requires |h.free| == 7
  {
    if size == 0 then (if old_.None? then h else Free(h, old_.value), None)
    else
      match Malloc(h, size)
      case (h1, None) => (h1, None)
      case (h1, Some(new_)) =>
        if old_.None? then (h1, Some(new_))
        else if !ValidBlock(h1, old_.value) then (h1.(panicked := true), Some(new_))
        else
          var room := Room(h1, old_.value);
          var n := if size < room then size else room;
          if new_ + n <= |h1.mem| && old_.value + n <= |h1.mem| && |h1.free| == 7 then
            (Free(h1.(mem := Copy(h1.mem, new_, old_.value, n)), old_.value), Some(new_))
          else (h1.(panicked := true), Some(new_))
  }
}
