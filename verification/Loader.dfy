/** Loading an ELF executable's segments into a process (load, validate_segment, load_segment,
    install_page and setup_stack in userprog/process.c), with the source's 32-bit arithmetic. */
module Loader {
  import opened Options
  import opened Bytes
  import opened UserPages
  import InodeIO
  import PageDirectory
  import PT = PageTable
  import PageRuns

  type Word = x: int | 0 <= x < 0x1_0000_0000

  datatype SegmentType = PtNull | PtLoad | PtDynamic | PtInterp | PtNote | PtShlib | PtPhdr | PtStack | PtOther

  /** A program header; writable is the flag PF_W. */
  datatype Phdr = Phdr(kind: SegmentType, offset: Word, vaddr: Word, filesz: Word, memsz: Word, writable: bool)

  // ---------------------------------------------------------------
  // The headers of an executable
  // ---------------------------------------------------------------

  /** Little-endian fields of a file. */
  function Half(file: seq<byte>, at: nat): nat
    requires at + 2 <= |file|
  {
    file[at] as int + 0x100 * file[at + 1] as int
  }

  function WordAt(file: seq<byte>, at: nat): Word
    requires at + 4 <= |file|
  {
    Half(file, at) + 0x1_0000 * Half(file, at + 2)
  }

  /** "\177ELF", 32-bit, little-endian, version 1. */
  const MAGIC: seq<byte> := [127, 69, 76, 70, 1, 1, 1]

  /** The executable header that load accepts: an executable for the i386 with at most 1024 program
      headers of 32 bytes. */
  predicate HeaderOk(h: seq<byte>) {
    && |h| >= 52 && h[0..7] == MAGIC
    && Half(h, 16) == 2 && Half(h, 18) == 3 && WordAt(h, 20) == 1
    && Half(h, 42) == 32 && Half(h, 44) <= 1024
  }

  function KindOf(w: Word): SegmentType {
    if w == 0 then PtNull else if w == 1 then PtLoad else if w == 2 then PtDynamic else if w == 3 then PtInterp
    else if w == 4 then PtNote else if w == 5 then PtShlib else if w == 6 then PtPhdr
    else if w == 0x6474_e551 then PtStack else PtOther
  }

  /** The program header in 32 bytes; PF_W is the second bit of its flags. */
  function PhdrOf(h: seq<byte>): Phdr
    requires |h| >= 32
  {
    Phdr(KindOf(WordAt(h, 0)), WordAt(h, 4), WordAt(h, 8), WordAt(h, 16), WordAt(h, 20), WordAt(h, 24) / 2 % 2 == 1)
  }

  /** Program header i of a file, where its table is inside the file; load takes the table's place as
      a signed number. */
  ghost predicate HasPhdr(file: seq<byte>, i: nat) {
    HeaderOk(file) && WordAt(file, 28) < 0x8000_0000 && WordAt(file, 28) + 32 * i + 32 <= |file|
  }

  ghost function PhdrAt(file: seq<byte>, i: nat): Phdr
    requires HasPhdr(file, i)
  {
    var at := WordAt(file, 28) + 32 * i;
    PhdrOf(file[at..at + 32])
  }

  ghost function PhdrCount(file: seq<byte>): nat
    requires HeaderOk(file)
  {
    Half(file, 44)
  }

  /** The fields are the same in the bytes that file_read gives. */
  lemma SameFields(file: seq<byte>, h: seq<byte>)
    requires |file| >= 52 && h == file[0..52]
    ensures HeaderOk(h) <==> HeaderOk(file)
    ensures HeaderOk(h) ==>
                  Half(h, 44) == Half(file, 44) && WordAt(h, 28) == WordAt(file, 28)
                  && WordAt(h, 24) == WordAt(file, 24)
  {
    assert h[0..7] == file[0..7];
  }

  // ---------------------------------------------------------------
  // Segments
  // ---------------------------------------------------------------

  function Wrap(x: int): Word { x % 0x1_0000_0000 }

  predicate IsUser(va: Word) { va < 0xC000_0000 }

  /** x rounded up to whole pages, as 32-bit ROUND_UP computes it. */
  function RoundUpPage(x: Word): Word { Wrap(Wrap(x + 4095) / 4096 * 4096) }

  /** validate_segment, for a file of length bytes. */
  predicate Validate(ph: Phdr, length: nat) {
    && ph.offset % 4096 == ph.vaddr % 4096
    && ph.offset <= length
    && !(ph.memsz < ph.filesz)
    && ph.memsz != 0
    && IsUser(ph.vaddr)
    && IsUser(Wrap(ph.vaddr + ph.memsz))
    && !(Wrap(ph.vaddr + ph.memsz) < ph.vaddr)
    && !(ph.vaddr < 4096)
  }

  /** What load passes to load_segment. */
  datatype Plan = Plan(filePage: Word, memPage: Word, readBytes: Word, zeroBytes: Word)

  function PlanFor(ph: Phdr): Plan {
    var filePage, memPage, ofs := ph.offset / 4096 * 4096, ph.vaddr / 4096 * 4096, ph.vaddr % 4096;
    if ph.filesz > 0 then
      var readBytes := Wrap(ofs + ph.filesz);
      Plan(filePage, memPage, readBytes, Wrap(RoundUpPage(Wrap(ofs + ph.memsz)) - readBytes))
    else Plan(filePage, memPage, 0, RoundUpPage(Wrap(ofs + ph.memsz)))
  }

  /** For a valid segment nothing wraps or goes below zero, load_segment's assertions hold, and its
      pages are those that the segment touches, all of them user pages past page 0. */
  lemma PlanIsExact(ph: Phdr, length: nat)
    requires Validate(ph, length)
    ensures var p := PlanFor(ph);
            && p.readBytes == (if ph.filesz > 0 then ph.vaddr % 4096 + ph.filesz else 0)
            && p.readBytes + p.zeroBytes == (ph.vaddr % 4096 + ph.memsz + 4095) / 4096 * 4096
            && (p.readBytes + p.zeroBytes) % 4096 == 0 && p.memPage % 4096 == 0 && p.filePage % 4096 == 0
            && 4096 <= p.memPage <= ph.vaddr && ph.vaddr + ph.memsz <= p.memPage + p.readBytes
               + p.zeroBytes <= 0xC000_0000
            && p.memPage + p.readBytes + p.zeroBytes < ph.vaddr + ph.memsz + 4096
            && p.memPage + ph.vaddr % 4096 == ph.vaddr && p.filePage + ph.vaddr % 4096 == ph.offset
  {
    hide RoundUpPage, PlanFor, Validate;
    PlanValues(ph, length);
    ValidateMeans(ph, length);
    RoundUpExact(ph.vaddr % 4096 + ph.memsz);
    PageParts(ph.vaddr);
    PageParts(ph.offset);
    WholePages(ph.vaddr / 4096, ph.vaddr % 4096 + ph.memsz);
  }

  lemma WholePages(u: nat, x: nat)
    requires 4096 * u + x <= 0xC000_0000
    ensures 4096 * u + (x + 4095) / 4096 * 4096 <= 0xC000_0000
  {
  }

  lemma PlanValues(ph: Phdr, length: nat)
    requires Validate(ph, length)
    ensures var p := PlanFor(ph);
            && p.filePage == ph.offset / 4096 * 4096 && p.memPage == ph.vaddr / 4096 * 4096
            && p.readBytes == (if ph.filesz > 0 then ph.vaddr % 4096 + ph.filesz else 0)
            && p.zeroBytes == RoundUpPage(ph.vaddr % 4096 + ph.memsz) - p.readBytes
  {
    hide RoundUpPage, Wrap, Validate;
    ValidateMeans(ph, length);
    var ofs := ph.vaddr % 4096;
    RoundUpExact(ofs + ph.memsz);
    WrapSmall(ofs + ph.filesz);
    WrapSmall(ofs + ph.memsz);
    WrapSmall(RoundUpPage(ofs + ph.memsz) - (ofs + ph.filesz));
  }

  lemma WrapSmall(x: int)
    requires 0 <= x < 0x1_0000_0000
    ensures Wrap(x) == x
  {
  }

  /** The tests on wrapped sums accept exactly the segments that lie in user memory past page 0 when
      nothing wraps. */
  lemma ValidateMeans(ph: Phdr, length: nat)
    ensures Validate(ph, length) <==>
              && ph.offset % 4096 == ph.vaddr % 4096 && ph.offset <= length && ph.filesz <= ph.memsz
              && 0 < ph.memsz && 4096 <= ph.vaddr && ph.vaddr + ph.memsz < 0xC000_0000
  {
  }

  lemma PageParts(x: nat)
    ensures x / 4096 * 4096 + x % 4096 == x && (x / 4096 * 4096) % 4096 == 0
    ensures x >= 4096 ==> x / 4096 * 4096 >= 4096
  {
  }

  lemma RoundUpExact(x: nat)
    requires x <= 0xC000_0000
    ensures RoundUpPage(x) == (x + 4095) / 4096 * 4096 && RoundUpPage(x) % 4096 == 0
    ensures x <= RoundUpPage(x) < x + 4096 && RoundUpPage(x) <= 0xC000_0000
  {
  }

  ghost function ByteAt(space: map<nat, Frame>, a: nat): Option<byte> {
    if a / 4096 in space then Some(space[a / 4096].bytes[a % 4096]) else None
  }

  /** Page t of a run that starts with readBytes bytes of the file from ofs on and goes on with
      zeros. */
  ghost function PageImage(file: seq<byte>, ofs: nat, readBytes: nat, t: nat): Page
    requires ofs + readBytes <= |file| || readBytes == 0
  {
    seq(4096, b requires 0 <= b < 4096 => if 4096 * t + b < readBytes then file[ofs + 4096 * t + b] else 0)
  }

  /** The segment is in memory as the ELF specification lays it out: p_filesz bytes of the file at
      p_offset, then zeros up to p_memsz. */
  ghost predicate SegmentLoaded(space: map<nat, Frame>, file: seq<byte>, ph: Phdr) {
    && (ph.filesz == 0 || ph.offset + ph.filesz <= |file|)
    && forall a: nat | ph.vaddr <= a < ph.vaddr + ph.memsz ::
         && ByteAt(space, a) == Some(if a - ph.vaddr < ph.filesz then file[ph.offset + (a - ph.vaddr)] else 0)
         && WritableAt(space, a) == Some(ph.writable)
  }

  ghost function WritableAt(space: map<nat, Frame>, a: nat): Option<bool> {
    if a / 4096 in space then Some(space[a / 4096].writable) else None
  }

  /** The n pages from u on hold the run. */
  ghost predicate RunLoaded(space: map<nat, Frame>, file: seq<byte>, ofs: nat, readBytes: nat, u: nat, n: nat,
                            writable: bool)
  {
    && (readBytes == 0 || ofs + readBytes <= |file|)
    && forall p: nat | u <= p < u + n ::
                  p in space && space[p] == Frame(PageImage(file, ofs, readBytes, p - u), writable)
  }

  /** space' has the pages of space, and perhaps more. */
  ghost predicate Extends(space: map<nat, Frame>, space': map<nat, Frame>) {
    forall p | p in space :: p in space' && space'[p] == space[p]
  }

  /** The loaded run is the segment. */
  lemma RunIsSegment(space: map<nat, Frame>, file: seq<byte>, ph: Phdr)
    requires Validate(ph, |file|)
    requires var p := PlanFor(ph);
             RunLoaded(space, file, p.filePage, p.readBytes, p.memPage / 4096, (p.readBytes + p.zeroBytes) / 4096,
                 ph.writable)
    ensures SegmentLoaded(space, file, ph)
  {
    hide Validate, PlanFor, RoundUpPage;
    PlanIsExact(ph, |file|);
    var p := PlanFor(ph);
    var u, n, ofs := p.memPage / 4096, (p.readBytes + p.zeroBytes) / 4096, ph.vaddr % 4096;
    forall a: nat | ph.vaddr <= a < ph.vaddr + ph.memsz
      ensures ByteAt(space, a) == Some(if a - ph.vaddr < ph.filesz then file[ph.offset + (a - ph.vaddr)] else 0)
      ensures WritableAt(space, a) == Some(ph.writable)
    {
      PlaceInRun(p.memPage, n, a);
      var t := a / 4096 - u;
      assert space[a / 4096] == Frame(PageImage(file, p.filePage, p.readBytes, t), ph.writable);
      ImageByte(file, p.filePage, p.readBytes, t, a % 4096);
    }
  }

  lemma PlaceInRun(start: nat, n: nat, a: nat)
    requires start % 4096 == 0 && start <= a < start + 4096 * n
    ensures start / 4096 <= a / 4096 < start / 4096 + n && 4096 * (a / 4096 - start / 4096) + a % 4096 == a - start
  {
  }

  lemma ImageByte(file: seq<byte>, ofs: nat, readBytes: nat, t: nat, b: nat)
    requires (ofs + readBytes <= |file| || readBytes == 0) && b < 4096
    ensures PageImage(file, ofs, readBytes, t)[b] == if 4096 * t + b < readBytes then file[ofs + 4096 * t + b] else 0
  {
  }

  lemma ExtendsKeepsSegment(space: map<nat, Frame>, space': map<nat, Frame>, file: seq<byte>, ph: Phdr)
    requires SegmentLoaded(space, file, ph) && Extends(space, space')
    ensures SegmentLoaded(space', file, ph)
  {
    forall a: nat | ph.vaddr <= a < ph.vaddr + ph.memsz
      ensures ByteAt(space', a) == ByteAt(space, a) && WritableAt(space', a) == WritableAt(space, a)
    {
      assert ByteAt(space, a).Some?;
    }
  }

  /** Program header i is in the file and of a kind that load takes, and if it is loadable its segment
      is in memory. */
  ghost predicate PhdrLoaded(space: map<nat, Frame>, file: seq<byte>, i: nat) {
    && HasPhdr(file, i)
    && var ph := PhdrAt(file, i);
       && !(ph.kind in {PtDynamic, PtInterp, PtShlib})
       && (ph.kind == PtLoad ==> Validate(ph, |file|) && SegmentLoaded(space, file, ph))
  }

  lemma StaysLoaded(space: map<nat, Frame>, space': map<nat, Frame>, file: seq<byte>, i: nat)
    requires PhdrLoaded(space, file, i) && Extends(space, space')
    ensures PhdrLoaded(space', file, i)
  {
    hide Validate, SegmentLoaded, HasPhdr, PhdrAt, Extends;
    if PhdrAt(file, i).kind == PtLoad {
      ExtendsKeepsSegment(space, space', file, PhdrAt(file, i));
    }
  }

  // ---------------------------------------------------------------
  // Which executables can be loaded
  // ---------------------------------------------------------------

  /** The pages from lo up to hi. */
  ghost function PageRange(lo: nat, hi: nat): (r: set<nat>)
    requires lo <= hi
    ensures |r| == hi - lo && forall p: nat :: p in r <==> lo <= p < hi
    decreases hi - lo
  {
    if lo == hi then {} else PageRange(lo, hi - 1) + {hi - 1}
  }

  /** The pages that a segment touches. */
  ghost function PagesOf(ph: Phdr): (r: set<nat>)
    ensures forall p: nat :: p in r <==> ph.vaddr / 4096 <= p < (ph.vaddr + ph.memsz + 4095) / 4096
  {
    PageRange(ph.vaddr / 4096, (ph.vaddr + ph.memsz + 4095) / 4096)
  }

  /** A header that load takes, into an address space with the pages of space mapped, page tables to be
      had for tables, and room free pages: it asks for no dynamic linking, and if it is loadable its
      segment is valid, its bytes are in the file, and its pages are new and can be had. */
  ghost predicate PhdrFits(ph: Phdr, file: seq<byte>, space: set<nat>, tables: set<nat>, room: int) {
    && !(ph.kind in {PtDynamic, PtInterp, PtShlib})
    && (ph.kind == PtLoad ==>
          && Validate(ph, |file|) && (ph.filesz == 0 || ph.offset + ph.filesz <= |file|)
          && PagesOf(ph) !! space && |PagesOf(ph)| <= room
          && forall p | p in PagesOf(ph) :: p / 1024 in tables)
  }

  ghost function LoadedPages(ph: Phdr): set<nat> { if ph.kind == PtLoad then PagesOf(ph) else {} }

  /** The pages of program header i. */
  ghost function SegmentPages(file: seq<byte>, i: nat): set<nat> {
    if HasPhdr(file, i) then LoadedPages(PhdrAt(file, i)) else {}
  }

  /** How many pages the first n program headers ask for. */
  ghost function PageTotal(file: seq<byte>, n: nat): nat {
    if n == 0 then 0 else PageTotal(file, n - 1) + |SegmentPages(file, n - 1)|
  }

  /** The first n program headers can be loaded: each is in the file and fits alone, no two share a page,
      and there is memory for all. */
  ghost predicate SegmentsFit(file: seq<byte>, n: nat, space: set<nat>, tables: set<nat>, room: nat) {
    && (forall i | 0 <= i < n :: HasPhdr(file, i) && PhdrFits(PhdrAt(file, i), file, space, tables, room))
    && (forall i, j | 0 <= i < j < n :: SegmentPages(file, i) !! SegmentPages(file, j))
    && PageTotal(file, n) <= room
  }

  /** The executable can be loaded, with the stack page on top of its segments. */
  ghost predicate Loadable(file: seq<byte>, space: set<nat>, tables: set<nat>, room: nat) {
    && HeaderOk(file)
    && SegmentsFit(file, PhdrCount(file), space, tables, room)
    && 0xB_FFFF !in space && 0xB_FFFF / 1024 in tables
    && (forall i | 0 <= i < PhdrCount(file) :: 0xB_FFFF !in SegmentPages(file, i))
    && PageTotal(file, PhdrCount(file)) < room
  }

  /** The run of pages that load_segment is given is the segment's. */
  lemma PlanPages(ph: Phdr, length: nat)
    requires Validate(ph, length)
    ensures var p := PlanFor(ph);
            var u, n := p.memPage / 4096, (p.readBytes + p.zeroBytes) / 4096;
            && u == ph.vaddr / 4096 && u + n == (ph.vaddr + ph.memsz + 4095) / 4096
            && |PagesOf(ph)| == n
            && (p.readBytes == 0 || p.filePage + p.readBytes <= length
                <==> ph.filesz == 0 || ph.offset + ph.filesz <= length)
  {
    hide Validate, PlanFor;
    PlanIsExact(ph, length);
    ValidateMeans(ph, length);
  }

  /** The pages mapped by the first n headers, on top of those of space. */
  ghost function MappedBy(file: seq<byte>, n: nat, space: set<nat>): set<nat> {
    if n == 0 then space else MappedBy(file, n - 1, space) + SegmentPages(file, n - 1)
  }

  lemma {:induction false} InMappedBy(file: seq<byte>, n: nat, space: set<nat>)
    ensures forall p :: p in MappedBy(file, n, space)
              <==> p in space || exists i :: 0 <= i < n && p in SegmentPages(file, i)
  {
    hide SegmentPages;
    if n > 0 { InMappedBy(file, n - 1, space); }
  }

  lemma {:induction false} TotalGrows(file: seq<byte>, m: nat, n: nat)
    requires m <= n
    ensures PageTotal(file, m) <= PageTotal(file, n)
    decreases n
  {
    hide SegmentPages;
    if m < n { TotalGrows(file, m, n - 1); }
  }

  lemma MappedNext(file: seq<byte>, n: nat, space: set<nat>)
    ensures HasPhdr(file, n) ==>
              && MappedBy(file, n + 1, space) == MappedBy(file, n, space) + LoadedPages(PhdrAt(file, n))
              && PageTotal(file, n + 1) == PageTotal(file, n) + |LoadedPages(PhdrAt(file, n))|
  {
    hide HasPhdr, PhdrAt, LoadedPages;
  }

  lemma ApartFromMapped(file: seq<byte>, n: nat, space: set<nat>, pages: set<nat>)
    ensures pages !! MappedBy(file, n, space)
      <==> pages !! space && forall i | 0 <= i < n :: SegmentPages(file, i) !! pages
  {
    hide SegmentPages, MappedBy;
    InMappedBy(file, n, space);
    forall i | 0 <= i < n && pages !! MappedBy(file, n, space)
      ensures SegmentPages(file, i) !! pages
    {
      assert forall p | p in SegmentPages(file, i) :: p in MappedBy(file, n, space);
    }
  }

  /** One header more fits exactly when it fits into what the others left. */
  lemma FitsOneMore(file: seq<byte>, n: nat, space: set<nat>, tables: set<nat>, room: nat)
    ensures SegmentsFit(file, n + 1, space, tables, room) <==>
              && SegmentsFit(file, n, space, tables, room) && HasPhdr(file, n)
              && PhdrFits(PhdrAt(file, n), file, MappedBy(file, n, space), tables, room - PageTotal(file, n))
  {
    hide HasPhdr, Validate, PagesOf, MappedBy, PhdrFits, LoadedPages;
    if SegmentsFit(file, n + 1, space, tables, room) {
      FitsEach(file, n + 1, space, tables, room, n);
    }
    InMappedBy(file, n, space);
    if HasPhdr(file, n) {
      var ph := PhdrAt(file, n);
      assert SegmentPages(file, n) == LoadedPages(ph);
      ApartFromMapped(file, n, space, LoadedPages(ph));
      FitsBeside(ph, file, space, MappedBy(file, n, space), tables, room, room - PageTotal(file, n));
      assert PageTotal(file, n + 1) == PageTotal(file, n) + |LoadedPages(ph)|;
      hide SegmentPages, PageTotal;
    }
  }

  lemma FitsEach(file: seq<byte>, n: nat, space: set<nat>, tables: set<nat>, room: nat, i: nat)
    requires SegmentsFit(file, n, space, tables, room) && i < n
    ensures HasPhdr(file, i) && PhdrFits(PhdrAt(file, i), file, space, tables, room)
  {
  }

  lemma FitsBeside(ph: Phdr, file: seq<byte>, space: set<nat>, space': set<nat>, tables: set<nat>, room: int,
      room': int)
    requires space <= space' && room' <= room
    ensures PhdrFits(ph, file, space', tables, room') && room' >= 0 <==>
              PhdrFits(ph, file, space, tables, room) && LoadedPages(ph) !! space' && |LoadedPages(ph)| <= room'
    ensures PhdrFits(ph, file, space, tables, room) ==> LoadedPages(ph) !! space
  {
    hide Validate, PagesOf;
  }

  lemma {:induction false} FitsFewer(file: seq<byte>, m: nat, n: nat, space: set<nat>, tables: set<nat>, room: nat)
    requires m <= n && SegmentsFit(file, n, space, tables, room)
    ensures SegmentsFit(file, m, space, tables, room)
    decreases n
  {
    hide SegmentsFit, PhdrFits, HasPhdr;
    if m < n {
      FitsOneMore(file, n - 1, space, tables, room);
      FitsFewer(file, m, n - 1, space, tables, room);
    }
  }

  /** Where the loop of load looks for program header i. */
  lemma PhdrPlace(file: seq<byte>, i: nat, ofs: int)
    requires HeaderOk(file)
    requires ofs < 0 <==> WordAt(file, 28) >= 0x8000_0000
    requires ofs >= 0 ==> ofs == WordAt(file, 28) + 32 * i
    ensures HasPhdr(file, i) <==> 0 <= ofs && ofs + 32 <= |file|
    ensures HasPhdr(file, i) ==> PhdrOf(file[ofs..ofs + 32]) == PhdrAt(file, i)
  {
    hide HeaderOk, PhdrOf, WordAt;
  }

  lemma NowLoaded(space: map<nat, Frame>, file: seq<byte>, i: nat)
    requires HasPhdr(file, i) && !(PhdrAt(file, i).kind in {PtDynamic, PtInterp, PtShlib})
    requires PhdrAt(file, i).kind == PtLoad ==>
               Validate(PhdrAt(file, i), |file|) && SegmentLoaded(space, file, PhdrAt(file, i))
    ensures PhdrLoaded(space, file, i)
  {
    hide HasPhdr, PhdrAt, Validate, SegmentLoaded;
  }

  lemma ExtendsFurther(a: map<nat, Frame>, b: map<nat, Frame>, c: map<nat, Frame>)
    requires Extends(a, b) && Extends(b, c)
    ensures Extends(a, c)
  {
  }

  /** The page table of a process, its memory and the file it loads. space is what the page table
      shows. */
  class Process {
    const pd: PageDirectory.PageDirectory
    var memory: map<nat, Page>
    var pool: seq<PT.Word>
    const tablePages: map<nat, PT.Word>
    const file: seq<byte>
    var pos: nat
    ghost var space: map<nat, Frame>

    ghost predicate Valid()
      reads this`memory, this`pool, this`space, pd, pd.pd
    {
      PT.Valid(pd.State()) && Shows(pd.State(), memory, space) && Stocked(pd.State(), pool, tablePages)
    }

    /** A process with a fresh page directory. pool are the free user pages, different from each other;
        tablePages the pages that can be had for page tables. */
    constructor (base: seq<PT.Word>, pts: map<nat, seq<PT.Word>>, file: seq<byte>, pool: seq<PT.Word>,
                 tablePages: map<nat, PT.Word>)
      requires |base| == 1024 && (forall i | 0 <= i < 768 :: base[i] == 0) && forall p | p in pts :: |pts[p]| == 1024
      requires (forall k | 0 <= k < |pool| :: PT.KernelPage(pool[k]))
      requires (forall j, k | 0 <= j < k < |pool| :: pool[j] as nat != pool[k] as nat)
      requires forall i | i in tablePages :: PT.KernelPage(tablePages[i]) && tablePages[i] as nat !in pts
      requires forall i, j | i in tablePages && j in tablePages && i != j ::
                 tablePages[i] as nat != tablePages[j] as nat
      ensures Valid() && fresh(pd) && fresh(pd.pd)
      ensures this.file == file && this.pool == pool && this.tablePages == tablePages && space == map[] && pos == 0
    {
      pd := new PageDirectory.PageDirectory(base, pts);
      this.file, this.pool, this.tablePages := file, pool, tablePages;
      memory, space, pos := map[], map[], 0;
      new;
      hide Shows, PT.View, PT.KernelPage;
      EmptyShows(pd.State(), map[]);
    }

    /** file_read from the position on: the bytes read. */
    method FileRead(size: nat) returns (w: seq<byte>)
      modifies this`pos
      ensures w == InodeIO.Stretch(file, old(pos), InodeIO.TransferCount(size, old(pos), |file|))
      ensures pos == old(pos) + |w| && |w| <= size
      ensures |w| == size <==> size == 0 || old(pos) + size <= |file|
      ensures size > 0 && old(pos) < |file| ==> w != [] && (|w| == size || old(pos) + |w| == |file|)
    {
      var n := InodeIO.TransferCount(size, pos, |file|);
      w := if pos + n <= |file| then file[pos..pos + n] else [];
      pos := pos + n;
    }

    /** install_page of a filled page that has been taken from the pool. */
    method InstallPage(upage: nat, kpage: PT.Word, writable: bool) returns (ok: bool)
      requires upage < 0xC_0000 && PT.Valid(pd.State()) && Shows(pd.State(), memory, space)
      requires Stocked(pd.State(), [kpage] + pool, tablePages) && kpage as nat in memory
      modifies this`space, pd`pts, pd.pd
      ensures ok <==> upage !in old(space) && upage / 1024 in tablePages
      ensures space == if ok then old(space)[upage := Frame(memory[kpage as nat], writable)] else old(space)
      ensures PT.Valid(pd.State()) && Shows(pd.State(), memory, space)
      ensures Stocked(pd.State(), if ok then pool else [kpage] + pool, tablePages)
    {
      hide Shows, Stocked, PT.Valid, PT.KernelPage, PT.SetPage, PT.GetPage, PT.PgOfs, PT.IsUser, PT.PdNo, PT.PtNo;
      hide PT.View;
      hide FrameInUse;
      var va := PageAddress(upage);
      var i := PT.PdNo(va);
      AddressIndex(upage);
      DirectoryLength(pd.State());
      InstallStocked(pd.State(), va, kpage, pool, writable, tablePages);
      var page := TablePage(pd.pd[i], tablePages, i);
      InstallShows(pd.State(), memory, space, va, kpage, writable, page);
      PT.GetPageReads(pd.State(), va);
      var there := pd.GetPage(va);
      if there.Some? {
        return false;
      }
      ok := pd.SetPage(va, kpage, writable, page);
      if ok {
        space := space[upage := Frame(memory[kpage as nat], writable)];
      }
    }

    static lemma DirectoryLength(t: PT.Tables)
      requires PT.Valid(t)
      ensures |t.pd| == 1024
    {
    }

    static lemma AddressIndex(p: nat)
      requires p < 0xC_0000
      ensures PT.PdNo(PageAddress(p)) == p / 1024
    {
      hide PT.PdNo, PT.PtNo, PT.IsUser, PT.PgOfs;
    }

    /** One turn of load_segment's loop: a page of memory is filled from the file and installed. */
    method LoadPage(page: nat, pageRead: nat, writable: bool) returns (ok: bool)
      requires Valid() && pageRead <= 4096 && page < 0xC_0000
      modifies this`space, this`pos, this`pool, this`memory, pd`pts, pd.pd
      ensures Valid()
      ensures ok <==> && old(pool) != [] && (pageRead == 0 || old(pos) + pageRead <= |file|)
                      && page !in old(space) && page / 1024 in tablePages
      ensures ok ==> pos == old(pos) + pageRead && |pool| == |old(pool)| - 1
      ensures ok ==> space == old(space)[page := Frame(Filled(file, old(pos), pageRead), writable)]
      ensures !ok ==> space == old(space)
    {
      hide Shows, Stocked, PT.Valid, PT.KernelPage;
      if pool == [] {
        return false;
      }
      var kpage := pool[0];
      assert pool == [kpage] + pool[1..];
      pool := pool[1..];
      var w := FileRead(pageRead);
      if |w| != pageRead {
        pool := [kpage] + pool;
        return false;
      }
      PoolHead(pd.State(), kpage, pool, tablePages);
      FillUnused(pd.State(), memory, space, kpage as nat, w + seq(4096 - pageRead, _ => 0));
      memory := memory[kpage as nat := w + seq(4096 - pageRead, _ => 0)];
      ok := InstallPage(page, kpage, writable);
      if !ok {
        pool := [kpage] + pool;
      }
    }

    static lemma PoolHead(t: PT.Tables, kpage: PT.Word, pool: seq<PT.Word>, tablePages: map<nat, PT.Word>)
      requires PT.Valid(t) && Stocked(t, [kpage] + pool, tablePages)
      ensures !FrameInUse(t, kpage as nat)
    {
      hide FrameInUse, PT.KernelPage, PT.Valid;
      assert ([kpage] + pool)[0] == kpage;
    }

    static ghost function Filled(file: seq<byte>, pos: nat, n: nat): Page
      requires n <= 4096 && (n == 0 || pos + n <= |file|)
    {
      (if n == 0 then [] else file[pos..pos + n]) + seq(4096 - n, _ => 0)
    }

    static lemma FilledPartly(file: seq<byte>, ofs: nat, readBytes: nat, t: nat, n: nat, before: map<nat, Frame>,
                              after: map<nat, Frame>,
                              page: nat, writable: bool)
      requires n == (if readBytes <= 4096 * t then 0 else if readBytes - 4096 * t < 4096 then readBytes - 4096 * t
               else 4096)
      requires n == 0 || ofs + 4096 * t + n <= |file|
      requires n > 0 ==> after == before[page := Frame(Filled(file, ofs + 4096 * t, n), writable)]
      requires n == 0 ==> exists pos :: after == before[page := Frame(Filled(file, pos, n), writable)]
      ensures page in after && after[page].writable == writable && Partly(after[page].bytes, file, ofs, readBytes, t)
    {
    }

    /** It succeeds exactly when the file has the bytes, no page is mapped yet, and memory lasts;
        then the pages hold the run. Other pages stay as they were in any case. */
    method LoadSegment(ofs: Word, upage: Word, readBytes0: Word, zeroBytes0: Word, writable: bool) returns (ok: bool)
      requires Valid() && upage + readBytes0 + zeroBytes0 <= 0xC000_0000
      requires (readBytes0 + zeroBytes0) % 4096 == 0 && upage % 4096 == 0 && ofs % 4096 == 0
      modifies this`space, this`pos, this`pool, this`memory, pd`pts, pd.pd
      ensures var n, u := (readBytes0 + zeroBytes0) / 4096, upage / 4096;
              ok <==> && (readBytes0 == 0 || ofs + readBytes0 <= |file|) && n <= |old(pool)|
                      && forall p: nat | u <= p < u + n :: p !in old(space) && p / 1024 in tablePages
      ensures Valid()
      ensures ok ==> RunLoaded(space, file, ofs, readBytes0, upage / 4096, (readBytes0 + zeroBytes0) / 4096, writable)
      ensures Extends(old(space), space)
      ensures forall p | p in space && p !in old(space) ::
                upage / 4096 <= p < upage / 4096 + (readBytes0 + zeroBytes0) / 4096
      ensures ok ==> |pool| == |old(pool)| - (readBytes0 + zeroBytes0) / 4096
    {
      hide Valid, Filled, Partly, PageImage;
      ghost var n, u, was := (readBytes0 + zeroBytes0) / 4096, upage / 4096, space;
      var readBytes: int, zeroBytes: int, page := readBytes0, zeroBytes0, upage / 4096;
      pos := ofs;
      ghost var t: nat := 0;
      while readBytes > 0 || zeroBytes > 0
        invariant Valid() && t <= n && page == u + t
        invariant readBytes == (if readBytes0 <= 4096 * t then 0 else readBytes0 - 4096 * t)
        invariant readBytes + zeroBytes == 4096 * (n - t) && zeroBytes >= 0
        invariant pos == ofs + readBytes0 - readBytes
        invariant |pool| == |old(pool)| - t
        invariant Extends(was, space)
        invariant forall p | p in space && p !in was :: u <= p < u + t
        invariant forall p: nat | u <= p < u + t :: p !in was && p / 1024 in tablePages
        invariant t > 0 && readBytes0 > 0 ==> pos <= |file|
        invariant readBytes == 0 && readBytes0 > 0 ==> ofs + readBytes0 <= |file|
        invariant forall p: nat | u <= p < u + t ::
                    p in space && space[p].writable == writable && Partly(space[p].bytes, file, ofs, readBytes0, p - u)
        decreases n - t
      {
        var pageRead := if readBytes < 4096 then readBytes else 4096;
        var pageZero := 4096 - pageRead;
        ghost var before := space;
        var loaded := LoadPage(page, pageRead, writable);
        if !loaded {
          return false;
        }
        FilledPartly(file, ofs, readBytes0, t, pageRead, before, space, page, writable);
        readBytes, zeroBytes, page := readBytes - pageRead, zeroBytes - pageZero, page + 1;
        t := t + 1;
      }
      assert t == n;
      forall p: nat | u <= p < u + n
        ensures space[p] == Frame(PageImage(file, ofs, readBytes0, p - u), writable)
      {
        PartlyIsImage(space[p].bytes, file, ofs, readBytes0, p - u);
      }
      return true;
    }

    /** bytes are what page i of the run holds, as far as the file goes. */
    static ghost predicate Partly(bytes: Page, file: seq<byte>, ofs: nat, readBytes: nat, i: nat) {
      forall b | 0 <= b < 4096 ::
        if 4096 * i + b < readBytes then ofs + 4096 * i + b < |file|
            && bytes[b] == file[ofs + 4096 * i + b] else bytes[b] == 0
    }

    static lemma PartlyIsImage(bytes: Page, file: seq<byte>, ofs: nat, readBytes: nat, i: nat)
      requires Partly(bytes, file, ofs, readBytes, i) && (readBytes == 0 || ofs + readBytes <= |file|)
      ensures bytes == PageImage(file, ofs, readBytes, i)
    {
    }

    /** What load_segment asks for is that the header fits. */
    static lemma LoadFits(ph: Phdr, file: seq<byte>, space: map<nat, Frame>, tablePages: map<nat, PT.Word>, room: nat)
      requires Validate(ph, |file|) && ph.kind == PtLoad
      ensures var p := PlanFor(ph);
              var u, n := p.memPage / 4096, (p.readBytes + p.zeroBytes) / 4096;
              PhdrFits(ph, file, space.Keys, tablePages.Keys, room) <==>
                && (p.readBytes == 0 || p.filePage + p.readBytes <= |file|) && n <= room
                && forall q: nat | u <= q < u + n :: q !in space && q / 1024 in tablePages
    {
      hide Validate, PlanFor, PagesOf;
      PlanPages(ph, |file|);
      var p := PlanFor(ph);
      RangeIsNew(PagesOf(ph), p.memPage / 4096, (p.readBytes + p.zeroBytes) / 4096, space, tablePages);
    }

    static lemma RangeIsNew(pages: set<nat>, u: nat, n: nat, space: map<nat, Frame>, tablePages: map<nat, PT.Word>)
      requires forall p: nat :: p in pages <==> u <= p < u + n
      ensures pages !! space.Keys && (forall p | p in pages :: p / 1024 in tablePages.Keys)
        <==> forall q: nat | u <= q < u + n :: q !in space && q / 1024 in tablePages
    {
      if forall q: nat | u <= q < u + n :: q !in space && q / 1024 in tablePages {
        forall p | p in pages
          ensures p !in space.Keys && p / 1024 in tablePages.Keys
        {
        }
      }
      if pages !! space.Keys && (forall p | p in pages :: p / 1024 in tablePages.Keys) {
        forall q: nat | u <= q < u + n
          ensures q !in space && q / 1024 in tablePages
        {
          assert q in pages;
        }
      }
    }

    static lemma NewlyMapped(before: map<nat, Frame>, after: map<nat, Frame>, file: seq<byte>, ofs: nat, readBytes: nat,
                             u: nat, pages: set<nat>, writable: bool)
      requires Extends(before, after) && forall p: nat :: p in pages <==> u <= p < u + |pages|
      requires RunLoaded(after, file, ofs, readBytes, u, |pages|, writable)
      requires forall p | p in after && p !in before :: u <= p < u + |pages|
      ensures after.Keys == before.Keys + pages
    {
    }

    /** One program header of the loop of load: it succeeds exactly when the header fits, and then its
        pages are mapped and no others. */
    method LoadPhdr(ph: Phdr) returns (ok: bool)
      requires Valid()
      modifies this`space, this`pos, this`pool, this`memory, pd`pts, pd.pd
      ensures Valid() && Extends(old(space), space)
      ensures ok <==> PhdrFits(ph, file, old(space).Keys, tablePages.Keys, |old(pool)|)
      ensures ok ==> !(ph.kind in {PtDynamic, PtInterp, PtShlib})
      ensures ok ==> space.Keys == old(space).Keys + LoadedPages(ph) && |pool| == |old(pool)| - |LoadedPages(ph)|
      ensures ok && ph.kind == PtLoad ==> Validate(ph, |file|) && SegmentLoaded(space, file, ph)
    {
      hide Validate, PlanFor, SegmentLoaded, RunLoaded, Valid, PagesOf;
      match ph.kind {
        case PtDynamic => return false;
        case PtInterp => return false;
        case PtShlib => return false;
        case PtLoad =>
          if !Validate(ph, |file|) {
            return false;
          }
          PlanIsExact(ph, |file|);
          PlanPages(ph, |file|);
          var p := PlanFor(ph);
          ghost var was := space;
          LoadFits(ph, file, space, tablePages, |pool|);
          ok := LoadSegment(p.filePage, p.memPage, p.readBytes, p.zeroBytes, ph.writable);
          if ok {
            RunIsSegment(space, file, ph);
            NewlyMapped(was, space, file, p.filePage, p.readBytes, p.memPage / 4096, PagesOf(ph), ph.writable);
          }
        case _ => ok := true;
      }
    }

    /** One turn of the loop of load: program header i is read from its place in the file, if it is there,
        and loaded, if it fits. */
    method LoadNext(i: nat, ofs: int) returns (ok: bool)
      requires Valid() && HeaderOk(file)
      requires ofs < 0 <==> WordAt(file, 28) >= 0x8000_0000
      requires ofs >= 0 ==> ofs == WordAt(file, 28) + 32 * i
      modifies this`space, this`pos, this`pool, this`memory, pd`pts, pd.pd
      ensures Valid() && Extends(old(space), space)
      ensures ok <==> && HasPhdr(file, i)
                      && PhdrFits(PhdrAt(file, i), file, old(space).Keys, tablePages.Keys, |old(pool)|)
      ensures ok ==> && space.Keys == old(space).Keys + LoadedPages(PhdrAt(file, i))
                     && |pool| == |old(pool)| - |LoadedPages(PhdrAt(file, i))|
      ensures ok ==> PhdrLoaded(space, file, i)
    {
      hide Validate, SegmentLoaded, HeaderOk, PhdrOf, Valid, PhdrFits, LoadedPages, PagesOf;
      hide HasPhdr, PhdrAt, PhdrLoaded, Extends, WordAt;
      PhdrPlace(file, i, ofs);
      ExtendsSelf(space);
      if ofs < 0 || ofs > |file| {
        return false;
      }
      pos := ofs;
      var h := FileRead(32);
      if |h| != 32 {
        return false;
      }
      ok := LoadPhdr(PhdrOf(h));
      if ok { NowLoaded(space, file, i); }
    }

    /** The loop of load over the program headers: it succeeds exactly when all of them can be loaded. */
    method LoadSegments(phoff: Word, phnum: nat) returns (ok: bool)
      requires Valid() && HeaderOk(file) && phoff == WordAt(file, 28) && |file| < 0x8000_0000
      modifies this`space, this`pos, this`pool, this`memory, pd`pts, pd.pd
      ensures Valid() && Extends(old(space), space)
      ensures ok <==> SegmentsFit(file, phnum, old(space).Keys, tablePages.Keys, |old(pool)|)
      ensures ok ==> space.Keys == MappedBy(file, phnum, old(space).Keys)
      ensures ok ==> |pool| == |old(pool)| - PageTotal(file, phnum)
      ensures ok ==> forall i | 0 <= i < phnum :: PhdrLoaded(space, file, i)
    {
      hide HeaderOk, WordAt, Valid, SegmentsFit, PhdrFits, LoadedPages, MappedBy, PageTotal, HasPhdr, PhdrAt;
      hide PhdrLoaded;
      hide Extends, Progress;
      ghost var first, tables, room := space, tablePages.Keys, |pool|;
      NoProgress(file, first, tables, room);
      // file_ofs is a signed 32-bit number
      var ofs := if phoff < 0x8000_0000 then phoff else phoff - 0x1_0000_0000;
      var i := 0;
      while i < phnum
        invariant Valid() && 0 <= i <= phnum
        invariant i > 0 ==> phoff < 0x8000_0000
        invariant phoff < 0x8000_0000 ==> ofs == phoff + 32 * i
        invariant phoff >= 0x8000_0000 ==> ofs < 0
        invariant Progress(file, i, first, space, tables, room, |pool|)
      {
        ghost var was, left := space, |pool|;
        var loaded := LoadNext(i, ofs);
        if !loaded {
          NoMore(file, i, phnum, first, was, space, tables, room, left);
          return false;
        }
        PhdrInLow(file, i);
        OneMore(file, i, first, was, space, tables, room, left, |pool|);
        ofs := ofs + 32;
        i := i + 1;
      }
      AllDone(file, phnum, first, space, tables, room, |pool|);
      ok := true;
    }

    /** The first i headers have been loaded: they fit, their pages are mapped, and so many pages are left. */
    static ghost predicate Progress(file: seq<byte>, i: nat, first: map<nat, Frame>, space: map<nat, Frame>,
                                    tables: set<nat>, room: nat, left: nat) {
      && SegmentsFit(file, i, first.Keys, tables, room)
      && space.Keys == MappedBy(file, i, first.Keys) && left == room - PageTotal(file, i)
      && Extends(first, space)
      && forall j | 0 <= j < i :: PhdrLoaded(space, file, j)
    }

    static lemma NoProgress(file: seq<byte>, space: map<nat, Frame>, tables: set<nat>, room: nat)
      ensures Progress(file, 0, space, space, tables, room, room)
    {
    }

    static lemma OneMore(file: seq<byte>, i: nat, first: map<nat, Frame>, was: map<nat, Frame>, space: map<nat, Frame>,
                         tables: set<nat>, room: nat, left: nat, left': nat)
      requires Progress(file, i, first, was, tables, room, left) && Extends(was, space)
      requires HasPhdr(file, i) && PhdrFits(PhdrAt(file, i), file, was.Keys, tables, left)
      requires space.Keys == was.Keys + LoadedPages(PhdrAt(file, i)) && left' == left - |LoadedPages(PhdrAt(file, i))|
      requires PhdrLoaded(space, file, i)
      ensures Progress(file, i + 1, first, space, tables, room, left')
    {
      hide SegmentsFit, PhdrFits, LoadedPages, MappedBy, PageTotal, HasPhdr, PhdrAt, PhdrLoaded, Extends;
      FitsOneMore(file, i, first.Keys, tables, room);
      MappedNext(file, i, first.Keys);
      ExtendsFurther(first, was, space);
      forall j | 0 <= j < i
        ensures PhdrLoaded(space, file, j)
      {
        StaysLoaded(was, space, file, j);
      }
    }

    /** Where header i does not fit, the headers do not. */
    static lemma NoMore(file: seq<byte>, i: nat, n: nat, first: map<nat, Frame>, was: map<nat, Frame>,
                        space: map<nat, Frame>, tables: set<nat>, room: nat, left: nat)
      requires i < n && Progress(file, i, first, was, tables, room, left) && Extends(was, space)
      requires !(HasPhdr(file, i) && PhdrFits(PhdrAt(file, i), file, was.Keys, tables, left))
      ensures !SegmentsFit(file, n, first.Keys, tables, room) && Extends(first, space)
    {
      hide SegmentsFit, PhdrFits, MappedBy, PageTotal, HasPhdr, PhdrAt, PhdrLoaded, Extends;
      FitsOneMore(file, i, first.Keys, tables, room);
      ExtendsFurther(first, was, space);
      if SegmentsFit(file, n, first.Keys, tables, room) { FitsFewer(file, i + 1, n, first.Keys, tables, room); }
    }

    static lemma AllDone(file: seq<byte>, n: nat, first: map<nat, Frame>, space: map<nat, Frame>, tables: set<nat>,
                         room: nat, left: nat)
      requires Progress(file, n, first, space, tables, room, left)
      ensures SegmentsFit(file, n, first.Keys, tables, room) && Extends(first, space)
      ensures space.Keys == MappedBy(file, n, first.Keys) && left == room - PageTotal(file, n)
      ensures forall j | 0 <= j < n :: PhdrLoaded(space, file, j)
    {
      hide SegmentsFit, MappedBy, PageTotal, PhdrLoaded, Extends;
    }

    static lemma PhdrInLow(file: seq<byte>, i: nat)
      requires HasPhdr(file, i)
      ensures WordAt(file, 28) < 0x8000_0000
    {
    }

    static lemma ExtendsSelf(space: map<nat, Frame>)
      ensures Extends(space, space)
    {
    }

    /** A zeroed page at the top of user memory; the stack pointer is its end. */
    method SetupStack() returns (esp: Option<Word>)
      requires Valid()
      modifies this`space, this`pool, this`memory, pd`pts, pd.pd
      ensures Valid() && Extends(old(space), space)
      ensures esp.Some? <==> old(pool) != [] && 0xB_FFFF !in old(space) && 0xB_FFFF / 1024 in tablePages
      ensures esp.Some? ==>
                esp.value == 0xC000_0000 && forall a: nat | 0xBFFF_F000 <= a < 0xC000_0000 ::
                      ByteAt(space, a) == Some(0)
    {
      hide Shows, Stocked, PT.Valid, PT.KernelPage;
      if pool == [] {
        return None;
      }
      var kpage := pool[0];
      assert pool == [kpage] + pool[1..];
      pool := pool[1..];
      PoolHead(pd.State(), kpage, pool, tablePages);
      FillUnused(pd.State(), memory, space, kpage as nat, seq(4096, _ => 0));
      memory := memory[kpage as nat := seq(4096, _ => 0)];
      var installed := InstallPage(0xB_FFFF, kpage, true);
      if !installed {
        pool := [kpage] + pool;
        return None;
      }
      esp := Some(0xC000_0000);
    }

    /** load: it succeeds exactly when the file is an executable of the kind that runs here whose
        segments and stack page can be loaded;
            then every loadable segment that its program headers name is in memory as they lay it out,
                where a user's access
        through the page table finds it; the stack page is zero; and the entry point is the header's. */
    method Load() returns (start: Option<(Word, Word)>)
      requires Valid() && |file| < 0x8000_0000
      modifies this`space, this`pos, this`pool, this`memory, pd`pts, pd.pd
      ensures Valid() && Extends(old(space), space)
      ensures start.Some? <==> Loadable(file, old(space).Keys, tablePages.Keys, |old(pool)|)
      ensures start.Some? ==>
                && HeaderOk(file) && start.value == (WordAt(file, 24), 0xC000_0000)
                && (forall a: nat | 0xBFFF_F000 <= a < 0xC000_0000 ::
                     SeenAt(pd.State(), memory, a / 4096, a % 4096) == Some(0))
                && forall i | 0 <= i < PhdrCount(file) ::
                     PhdrLoaded(space, file, i) && PhdrSeen(pd.State(), memory, file, i)
    {
      hide HeaderOk, Validate, SegmentLoaded, HasPhdr, PhdrAt, WordAt, Half, Valid, SeenAt, PhdrSeen;
      hide SegmentsFit, SegmentPages, PageTotal;
      pos := 0;
      var h := FileRead(52);
      if |h| != 52 {
        if HeaderOk(file) { HeaderLong(file); }
        return None;
      }
      SameFields(file, h);
      if !HeaderOk(h) {
        return None;
      }
      HeaderLong(h);
      var ok := LoadSegments(WordAt(h, 28), Half(h, 44));
      if !ok {
        return None;
      }
      InMappedBy(file, PhdrCount(file), old(space).Keys);
      ghost var was := space;
      var esp := SetupStack();
      if esp.None? {
        return None;
      }
      ValidParts();
      forall i | 0 <= i < PhdrCount(file)
        ensures PhdrLoaded(space, file, i) && PhdrSeen(pd.State(), memory, file, i)
      {
        StaysLoaded(was, space, file, i);
        LoadedIsSeen(pd.State(), memory, space, file, i);
      }
      forall a: nat | 0xBFFF_F000 <= a < 0xC000_0000
        ensures SeenAt(pd.State(), memory, a / 4096, a % 4096) == Some(0)
      {
        assert ByteAt(space, a) == Some(0);
        SeenIsShown(pd.State(), memory, space, a / 4096, a % 4096);
      }
      start := Some((WordAt(h, 24), esp.value));
    }

    lemma ValidParts()
      requires Valid()
      ensures PT.Valid(pd.State()) && Shows(pd.State(), memory, space)
    {
    }
  }

  /** The bytes of loadable segment i, as a user's accesses through the page table find them. */
  ghost predicate PhdrSeen(t: PT.Tables, memory: map<nat, Page>, file: seq<byte>, i: nat)
    requires PT.Valid(t)
  {
    && HasPhdr(file, i)
    && var ph := PhdrAt(file, i);
       ph.kind == PtLoad ==>
         && ph.vaddr + ph.memsz <= 0xC000_0000 && (ph.filesz == 0 || ph.offset + ph.filesz <= |file|)
         && forall a: nat | ph.vaddr <= a < ph.vaddr + ph.memsz ::
              SeenAt(t, memory, a / 4096, a % 4096)
              == Some(if a - ph.vaddr < ph.filesz then file[ph.offset + (a - ph.vaddr)] else 0)
  }

  lemma LoadedIsSeen(t: PT.Tables, memory: map<nat, Page>, space: map<nat, Frame>, file: seq<byte>, i: nat)
    requires PT.Valid(t) && Shows(t, memory, space) && PhdrLoaded(space, file, i)
    ensures PhdrSeen(t, memory, file, i)
  {
    hide Shows, SeenAt, HasPhdr, PhdrAt, Validate, PT.Valid;
    var ph := PhdrAt(file, i);
    if ph.kind == PtLoad {
      ValidateMeans(ph, |file|);
      forall a: nat | ph.vaddr <= a < ph.vaddr + ph.memsz
        ensures a / 4096 < 0xC_0000
        ensures SeenAt(t, memory, a / 4096, a % 4096)
             == Some(if a - ph.vaddr < ph.filesz then file[ph.offset + (a - ph.vaddr)] else 0)
      {
        SeenIsShown(t, memory, space, a / 4096, a % 4096);
        assert ByteAt(space, a).Some?;
      }
    }
  }

  lemma HeaderLong(h: seq<byte>)
    requires HeaderOk(h)
    ensures |h| >= 52
  {
  }
}
