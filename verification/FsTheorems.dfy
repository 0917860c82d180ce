/** What holds over every run of file system operations from a fresh format. */
module FsTheorems {
  import opened Lists
  import opened Options
  import opened Bitmap
  import opened Bytes
  import opened FsModel
  import InodeIO
  import opened FsOwnership
  import opened FsInvariant
  import opened FsRuns

  datatype Op =
    | CreateOp(name: Name, size: int, ok: Faults)
    | OpenOp(name: Name, id: nat, ok: Faults)
    | ReopenOp(id: nat, id2: nat, ok: Faults)
    | CloseOp(id: nat)
    | RemoveOp(name: Name, ok: Faults)
    | DenyOp(id: nat)
    | AllowOp(id: nat)
    | SeekOp(id: nat, pos: nat)
    | WriteOp(id: nat, w: seq<byte>, most: nat)

  /** What callers must see to: files they name are open, new files get new names, and a
      created file has a nonnegative 32-bit size. */
  ghost predicate Legal(fs: Fs, op: Op) {
    match op
    case CreateOp(_, size, _) => 0 <= size < 0x8000_0000 && |fs.disk| == |fs.freeMap|
    case OpenOp(_, id, _) => id !in fs.files
    case ReopenOp(id, id2, _) => id in fs.files && id2 !in fs.files
    case CloseOp(id) => id in fs.files
    case RemoveOp(_, _) => true
    case DenyOp(id) => id in fs.files
    case AllowOp(id) => id in fs.files
    case SeekOp(id, _) => id in fs.files
    case WriteOp(id, _, _) => id in fs.files
  }

  ghost function Step(fs: Fs, op: Op): Fs
    requires Legal(fs, op)
  {
    match op
    case CreateOp(name, size, ok) => Create(fs, name, size, ok).0
    case OpenOp(name, id, ok) => Open(fs, name, id, ok).0
    case ReopenOp(id, id2, ok) => Reopen(fs, id, id2, ok).0
    case CloseOp(id) => Close(fs, id)
    case RemoveOp(name, ok) => Remove(fs, name, ok).0
    case DenyOp(id) => DenyWrite(fs, id)
    case AllowOp(id) => AllowWrite(fs, id)
    case SeekOp(id, pos) => Seek(fs, id, pos)
    case WriteOp(id, w, most) => Write(fs, id, w, most)
  }

  ghost predicate LegalRun(fs: Fs, ops: seq<Op>)
    decreases |ops|
  {
    ops != [] ==> Legal(fs, ops[0]) && LegalRun(Step(fs, ops[0]), ops[1..])
  }

  ghost function Run(fs: Fs, ops: seq<Op>): Fs
    requires LegalRun(fs, ops)
    decreases |ops|
  {
    if ops == [] then fs else Run(Step(fs, ops[0]), ops[1..])
  }

  lemma StepKeeps(fs: Fs, op: Op)
    requires Inv(fs) && Quiescent(fs) && Legal(fs, op)
    ensures Inv(Step(fs, op)) && Quiescent(Step(fs, op))
  {
    hide Inv, Create, Open, Reopen, Close, Remove, DenyWrite, AllowWrite, Write, Live, KeepsCovered;
    match op
    case CreateOp(name, size, ok) => CreateKeeps(fs, name, size, ok);
    case OpenOp(name, id, ok) => OpenKeeps(fs, name, id, ok);
    case ReopenOp(id, id2, ok) => ReopenKeeps(fs, id, id2, ok);
    case CloseOp(id) => CloseKeeps(fs, id);
    case RemoveOp(name, ok) => RemoveKeeps(fs, name, ok);
    case DenyOp(id) => DenyWriteKeeps(fs, id);
    case AllowOp(id) => AllowWriteKeeps(fs, id);
    case SeekOp(id, pos) => SeekKeeps(fs, id, pos);
    case WriteOp(id, w, most) => WriteKeeps(fs, id, w, most);
  }

  /** The invariant holds after every run. */
  lemma {:induction false} RunKeeps(fs: Fs, ops: seq<Op>)
    requires Inv(fs) && Quiescent(fs) && LegalRun(fs, ops)
    ensures Inv(Run(fs, ops)) && Quiescent(Run(fs, ops))
    decreases |ops|
  {
    if ops != [] {
      StepKeeps(fs, ops[0]);
      RunKeeps(Step(fs, ops[0]), ops[1..]);
    }
  }

  // ---------------------------------------------------------------
  // Formatting
  // ---------------------------------------------------------------

  /** bitmap_file_size: 32-bit words. */
  function MapFileSize(size: nat): nat { 4 * ((size + 31) / 32) }

  ghost function Blank(size: nat): Fs {
    Fs(seq(size, i => i < 2), seq(size, _ => Data(InodeIO.ZeroSector())), seq(16, _ => Entry(false, [], 0)),
       [], map[], false, multiset{}, {})
  }

  /** do_format and free_map_open, given memory: the free map file, then the root directory
      with room for 16 entries of 20 bytes, then the free map file opened for good. */
  ghost function Format(size: nat): (Fs, bool)
    requires 2 <= size
  {
    var (fs1, ok1) := InodeCreate(Blank(size), 0, MapFileSize(size), true, true);
    if !ok1 || |fs1.disk| != |fs1.freeMap| then (fs1, false)
    else
      var (fs2, ok2) := InodeCreate(fs1, 1, 320, true, true);
      if !ok2 then (fs2, false) else InodeOpen(fs2, 0, true)
  }

  /** The first run of a free map used up to mark. */
  lemma FirstRunAfter(bits: seq<bool>, mark: nat, cnt: nat)
    requires mark <= |bits| && cnt > 0
    requires forall i | 0 <= i < |bits| :: bits[i] <==> i < mark
    ensures FirstRun(bits, 0, cnt, false) == if mark + cnt <= |bits| then Some(mark) else None
  {
    var r: Option<nat> := if mark + cnt <= |bits| then Some(mark) else None;
    forall j: nat | j < mark || mark + cnt > |bits|
      ensures !RunOf(bits, j, cnt, false)
    {
      if j < mark && j < |bits| { assert bits[j]; }
    }
    FirstRunUnique(bits, 0, cnt, false, r, FirstRun(bits, 0, cnt, false));
  }

  /** Formatting succeeds exactly when the two system files fit, and then the machine starts
      in the invariant. */
  lemma FormatEstablishes(size: nat)
    requires 2 <= size <= 0x8000_0000
    ensures Format(size).1 <==> 3 + BytesToSectors(MapFileSize(size)) <= size
    ensures Format(size).1 ==> Inv(Format(size).0) && Quiescent(Format(size).0)
  {
    hide Own, TableOk, BytesToSectors, ZeroRun;
    var b := Blank(size);
    var n := BytesToSectors(MapFileSize(size));
    MapFilePositive(size);
    FirstRunAfter(b.freeMap, 2, n);
    if 2 + n <= size {
      var (fs1, _) := InodeCreate(b, 0, MapFileSize(size), true, true);
      assert OneSector: BytesToSectors(320) == 1 by { RootSize(); }
      RootSize();
      FirstRunAfter(fs1.freeMap, 2 + n, 1);
      if 3 + n <= size {
        FormattedInv(size, n);
      }
    }
  }

  lemma RootSize()
    ensures BytesToSectors(320) == 1
  {
  }

  lemma MapFilePositive(size: nat)
    requires 2 <= size <= 0x8000_0000
    ensures 0 < BytesToSectors(MapFileSize(size)) <= 0x8000_0000 && MapFileSize(size) < 0x8000_0000
  {
  }

  /** The freshly formatted state. */
  lemma FormattedState(size: nat, n: nat)
    requires n == BytesToSectors(MapFileSize(size)) && 0 < n && MapFileSize(size) < 0x8000_0000
    requires 3 + n <= size <= 0x8000_0000
    requires FirstRun(Blank(size).freeMap, 0, n, false) == Some(2)
    requires var fs1 := InodeCreate(Blank(size), 0, MapFileSize(size), true, true).0;
             FirstRun(fs1.freeMap, 0, 1, false) == Some(2 + n)
    ensures Format(size).1
    ensures var fs := Format(size).0;
            && !fs.panicked && fs.held == multiset{0} && fs.files == map[] && fs.leaked == {}
            && fs.dir == Blank(size).dir && |fs.freeMap| == |fs.disk| == size
            && fs.disk[0] == Header(DiskInode(2, MapFileSize(size))) && fs.disk[1] == Header(DiskInode(2 + n, 320))
            && fs.opens == [InodeRec(0, 1, 0, false, DiskInode(2, MapFileSize(size)))]
            && (forall x | 0 <= x < size :: fs.freeMap[x] <==> x < 3 + n)
  {
    hide BytesToSectors, InodeSector, SectorInode;
    RootSize();
    MapFilePositive(size);
    InodeRoundTrip(DiskInode(2, MapFileSize(size)));
    assert FindOpen([], 0) == None;
  }

  /** What is in use and what is open after formatting. */
  lemma FormattedMap(size: nat)
    requires 2 <= size <= 0x8000_0000 && Format(size).1
    ensures var fs, mark := Format(size).0, 3 + BytesToSectors(MapFileSize(size));
            && mark <= size && fs.files == map[] && fs.leaked == {} && fs.dir == Blank(size).dir
            && |fs.freeMap| == |fs.disk| == size
            && forall x | 0 <= x < size :: fs.freeMap[x] <==> x < mark
  {
    hide Own, TableOk, BytesToSectors, ZeroRun, Inv;
    var b := Blank(size);
    var n := BytesToSectors(MapFileSize(size));
    FormatEstablishes(size);
    MapFilePositive(size);
    FirstRunAfter(b.freeMap, 2, n);
    var (fs1, _) := InodeCreate(b, 0, MapFileSize(size), true, true);
    FirstRunAfter(fs1.freeMap, 2 + n, 1);
    FormattedState(size, n);
  }

  lemma FormattedInv(size: nat, n: nat)
    requires n == BytesToSectors(MapFileSize(size)) && 0 < n && MapFileSize(size) < 0x8000_0000
    requires 3 + n <= size <= 0x8000_0000
    requires FirstRun(Blank(size).freeMap, 0, n, false) == Some(2)
    requires var fs1 := InodeCreate(Blank(size), 0, MapFileSize(size), true, true).0;
             FirstRun(fs1.freeMap, 0, 1, false) == Some(2 + n)
    ensures Format(size).1 && Inv(Format(size).0) && Quiescent(Format(size).0)
  {
    hide Format, FirstRun, InodeCreate;
    FormattedState(size, n);
    var fs := Format(size).0;
    assert Named(fs.dir) == {};
    assert Live(fs) == {0, 1};
    FormattedOwn(fs.freeMap, fs.disk, n, MapFileSize(size));
    assert OnFile(fs.files, 0) == {} && Denying(fs.files, 0) == {};
    assert RecOk(fs.opens[0], fs.disk, fs.files, fs.held, Kept(fs.dir));
  }

  lemma FormattedOwn(freeMap: seq<bool>, d: seq<Block>, n: nat, length: nat)
    requires n == BytesToSectors(length) && 0 < n && length < 0x8000_0000
    requires 3 + n <= |d| == |freeMap| <= 0x8000_0000
    requires d[0] == Header(DiskInode(2, length)) && d[1] == Header(DiskInode(2 + n, 320))
    requires forall x | 0 <= x < |d| :: freeMap[x] <==> x < 3 + n
    ensures Own(freeMap, d, {0, 1}, {})
  {
    hide BytesToSectors;
    RootSize();
    assert forall x: nat :: Covers(d, 0, x) <==> x == 0 || 2 <= x < 2 + n;
    assert forall x: nat :: Covers(d, 1, x) <==> x == 1 || x == 2 + n;
    forall x | 0 <= x < |d|
      ensures Owned(d, {0, 1}, x) <==> x < 3 + n
    {
      if Covers(d, 0, x) { assert 0 in {0, 1}; }
      if Covers(d, 1, x) { assert 1 in {0, 1}; }
    }
  }

  // ---------------------------------------------------------------
  // Consequences
  // ---------------------------------------------------------------

  /** From a fresh format, no assertion fails in any run: not free_map_release's on the
      sectors of a closed, removed or undone file, nor either of the write-denial counts'. */
  lemma NoAssertionFails(size: nat, ops: seq<Op>)
    requires 2 <= size <= 0x8000_0000 && Format(size).1 && LegalRun(Format(size).0, ops)
    ensures !Run(Format(size).0, ops).panicked
  {
    FormatEstablishes(size);
    RunKeeps(Format(size).0, ops);
  }

  /** After any run the sectors of live inodes - the system files, those with a directory
      entry, those still open - are in use and belong to one inode each; a sector is in use
      only if it belongs to one or has leaked. */
  lemma SectorsAreOwned(size: nat, ops: seq<Op>, x: nat)
    requires 2 <= size <= 0x8000_0000 && Format(size).1 && LegalRun(Format(size).0, ops)
    ensures var fs := Run(Format(size).0, ops);
            && (forall s, t | s in Live(fs) && t in Live(fs) && Covers(fs.disk, s, x) && Covers(fs.disk, t, x) ::
                 s == t)
            && (forall s | s in Live(fs) && Covers(fs.disk, s, x) ::
                 x < |fs.freeMap| && fs.freeMap[x] && x !in fs.leaked)
            && (x < |fs.freeMap| && fs.freeMap[x] ==> x in fs.leaked || exists s ::
                 s in Live(fs) && Covers(fs.disk, s, x))
  {
    FormatEstablishes(size);
    RunKeeps(Format(size).0, ops);
    var fs := Run(Format(size).0, ops);
    forall s | s in Live(fs) && Covers(fs.disk, s, x)
      ensures x < |fs.freeMap| && fs.freeMap[x]
    {
      CoveredUsed(fs.freeMap, fs.disk, Live(fs), fs.leaked, s, x);
    }
    if x < |fs.freeMap| && fs.freeMap[x] && x !in fs.leaked {
      assert Owned(fs.disk, Live(fs), x);
    }
  }

  /** After any run the table of open inodes is a faithful cache: one entry a sector, equal to
      the inode on the device, with open_cnt and deny_write_cnt equal to the open files of that
      inode and those of them denying writes (the free map file counting as one opener). */
  lemma TableIsFaithful(size: nat, ops: seq<Op>, i: nat)
    requires 2 <= size <= 0x8000_0000 && Format(size).1 && LegalRun(Format(size).0, ops)
    requires i < |Run(Format(size).0, ops).opens|
    ensures var fs := Run(Format(size).0, ops);
            var r := fs.opens[i];
            && (forall j | 0 <= j < |fs.opens| && fs.opens[j].sector == r.sector :: j == i)
            && r.sector < |fs.disk| && fs.disk[r.sector] == Header(r.data)
            && r.openCnt == |OnFile(fs.files, r.sector)| + (if r.sector == 0 then 1 else 0)
            && r.denyWriteCnt == |Denying(fs.files, r.sector)| <= r.openCnt
            && (r.removed <==> r.sector > 1 && r.sector !in Named(fs.dir))
  {
    hide Own, DirOk, Format, Run, LegalRun;
    FormatEstablishes(size);
    RunKeeps(Format(size).0, ops);
    var fs := Run(Format(size).0, ops);
    assert RecOk(fs.opens[i], fs.disk, fs.files, fs.held, Kept(fs.dir));
    SubsetSize(Denying(fs.files, fs.opens[i].sector), OnFile(fs.files, fs.opens[i].sector));
  }

  /** Directory names stay unique. */
  lemma NamesStayUnique(size: nat, ops: seq<Op>, i: nat, j: nat)
    requires 2 <= size <= 0x8000_0000 && Format(size).1 && LegalRun(Format(size).0, ops)
    ensures var dir := Run(Format(size).0, ops).dir;
            i < j < |dir| && dir[i].inUse && dir[j].inUse ==> dir[i].name != dir[j].name
  {
    FormatEstablishes(size);
    RunKeeps(Format(size).0, ops);
  }

  // ---------------------------------------------------------------
  // Contents of open files
  // ---------------------------------------------------------------

  /** No operation of the run closes file id or writes to its inode. */
  ghost predicate LeavesAlone(fs: Fs, ops: seq<Op>, id: nat)
    requires LegalRun(fs, ops)
    decreases |ops|
  {
    ops != [] ==>
      && !(ops[0].CloseOp? && ops[0].id == id)
      && !(ops[0].WriteOp? && id in fs.files && fs.files[ops[0].id].sector == fs.files[id].sector)
      && LeavesAlone(Step(fs, ops[0]), ops[1..], id)
  }

  lemma StepKeepsContent(fs: Fs, op: Op, id: nat)
    requires Inv(fs) && Quiescent(fs) && Legal(fs, op) && id in fs.files
    requires !(op.CloseOp? && op.id == id)
    requires !(op.WriteOp? && fs.files[op.id].sector == fs.files[id].sector)
    ensures id in Step(fs, op).files && Step(fs, op).files[id].sector == fs.files[id].sector
    ensures KeepsCovered(fs.disk, Step(fs, op).disk, {fs.files[id].sector})
  {
    hide Inv, Create, Open, Reopen, Close, Remove, DenyWrite, AllowWrite, Write, Live, Covers, Lookup;
    var s := fs.files[id].sector;
    FileEntry(fs, id);
    NothingWritten(fs);
    match op
    case CreateOp(name, size, ok) => CreateKeeps(fs, name, size, ok);
    case OpenOp(name, id', ok) => OpenKeeps(fs, name, id', ok);
    case ReopenOp(id', id2, ok) => ReopenKeeps(fs, id', id2, ok);
    case CloseOp(id') => CloseKeeps(fs, id');
    case RemoveOp(name, ok) => RemoveKeeps(fs, name, ok);
    case DenyOp(id') => DenyWriteKeeps(fs, id');
    case AllowOp(id') => AllowWriteKeeps(fs, id');
    case SeekOp(_, _) =>
    case WriteOp(id', w, most) => WriteKeeps(fs, id', w, most);
  }

  /** An open file keeps its inode and every byte of its contents over any run that neither
      closes it nor writes to it - also when its name is removed meanwhile. */
  lemma {:induction false} OpenFileKeepsContent(fs: Fs, ops: seq<Op>, id: nat)
    requires Inv(fs) && Quiescent(fs) && LegalRun(fs, ops) && LeavesAlone(fs, ops, id) && id in fs.files
    ensures var fs' := Run(fs, ops);
            && id in fs'.files && fs'.files[id].sector == fs.files[id].sector
            && KeepsCovered(fs.disk, fs'.disk, {fs.files[id].sector})
    decreases |ops|
  {
    var s := fs.files[id].sector;
    if ops == [] {
      NothingWritten(fs);
      FileEntry(fs, id);
    } else {
      var fs1 := Step(fs, ops[0]);
      StepKeeps(fs, ops[0]);
      StepKeepsContent(fs, ops[0], id);
      OpenFileKeepsContent(fs1, ops[1..], id);
      assert Covers(fs.disk, s, s);
      CoversKept(fs.disk, fs1.disk, Run(fs1, ops[1..]).disk, s);
    }
  }

  lemma CoversKept(disk: seq<Block>, disk1: seq<Block>, disk2: seq<Block>, s: nat)
    requires KeepsCovered(disk, disk1, {s}) && KeepsCovered(disk1, disk2, {s})
    ensures KeepsCovered(disk, disk2, {s})
  {
    assert Covers(disk, s, s);
    forall x: nat | Covers(disk, s, x)
      ensures x < |disk| && disk2[x] == disk[x]
    {
      assert Covers(disk1, s, x);
    }
  }

  // ---------------------------------------------------------------
  // What a failed creation leaks
  // ---------------------------------------------------------------

  /** inode_open of a file that is there: already open, or malloc gives the memory. */
  ghost predicate Openable(fs: Fs, s: nat, memOk: bool) { s in OpenSectors(fs.opens) || memOk }

  ghost predicate RootOpens(fs: Fs, ok: Faults) { Openable(fs, 1, ok.rootInode) && ok.rootDir }

  lemma InodeOpens(fs: Fs, s: nat, memOk: bool)
    requires Inv(fs) && s in Kept(fs.dir)
    ensures InodeOpen(fs, s, memOk).1 <==> Openable(fs, s, memOk)
  {
    hide Inv, FindOpen, Kept, OpenSectors;
    LiveArePlaced(fs, s);
    FindOpenIsMembership(fs.opens, s);
  }

  lemma RootOpensIff(fs: Fs, ok: Faults)
    requires Inv(fs)
    ensures OpenRoot(fs, ok).1 <==> RootOpens(fs, ok)
  {
    hide Inv, InodeOpen, InodeClose, Openable;
    InodeOpens(fs, 1, ok.rootInode);
  }

  /** The creation gets as far as the directory. */
  ghost predicate ReachesDirectory(fs: Fs, size: nat, ok: Faults)
    requires Inv(fs)
  {
    && RootOpens(fs, ok)
    && ok.headerWrite && ok.diskInode && ok.dataWrite
    && RoomFor(fs, size)
  }

  /** A free sector for the header, and a free run for the data beside it. */
  ghost predicate RoomFor(fs: Fs, size: nat) {
    var h := FirstRun(fs.freeMap, 0, 1, false);
    h.Some? && FirstRun(SetRun(fs.freeMap, h.value, 1, true), 0, BytesToSectors(size), false).Some?
  }

  /** The directory takes the name: valid, new, and with a free slot for it. */
  ghost predicate TakesName(dir: seq<Entry>, name: Name) {
    && name != [] && |name| <= 14
    && Lookup(dir, name).None? && FreeSlot(dir).Some?
  }

  /** filesys_create succeeds exactly when it reaches a directory that takes the name. */
  lemma CreateSucceeds(fs: Fs, name: Name, size: nat, ok: Faults)
    requires Inv(fs) && size < 0x8000_0000
    ensures |fs.disk| == |fs.freeMap|
    ensures Create(fs, name, size, ok).1 <==> ReachesDirectory(fs, size, ok) && TakesName(fs.dir, name)
  {
    hide Inv, Live, InodeClose, OpenRoot, BytesToSectors, ZeroRun, RootOpens;
    SizesAgree(fs);
    RootOpensIff(fs, ok);
    OpenRootKeeps(fs, ok);
  }

  /** It leaks exactly when it reaches a directory that does not, with data to lose. */
  lemma CreateLeaks(fs: Fs, name: Name, size: nat, ok: Faults)
    requires Inv(fs) && size < 0x8000_0000
    ensures |fs.disk| == |fs.freeMap|
    ensures Create(fs, name, size, ok).0.leaked != fs.leaked
      <==> ReachesDirectory(fs, size, ok) && !TakesName(fs.dir, name) && size > 0
  {
    hide Inv, Live, InodeClose, OpenRoot, CreateIn, RootOpens;
    SizesAgree(fs);
    RootOpensIff(fs, ok);
    OpenRootKeeps(fs, ok);
    var (fs1, isOpen) := OpenRoot(fs, ok);
    if isOpen {
      CreateInLeaks(fs1, name, size, ok);
      CreateInKeeps(fs1, name, size, ok);
      CloseRootKeeps(CreateIn(fs1, name, size, ok).0);
    }
  }

  lemma CreateInLeaks(fs: Fs, name: Name, size: nat, ok: Faults)
    requires Inv(fs) && size < 0x8000_0000
    ensures |fs.disk| == |fs.freeMap|
    ensures CreateIn(fs, name, size, ok).0.leaked != fs.leaked
      <==> ok.headerWrite && ok.diskInode && ok.dataWrite && RoomFor(fs, size) && !TakesName(fs.dir, name) && size > 0
  {
    hide Inv, Live, BytesToSectors, Range, SetRun, FirstRun, ZeroRun, Lookup, FreeSlot;
    SizesAgree(fs);
    HeaderAllocated(fs, ok.headerWrite);
    PositiveSectors(size);
    var h := FirstRun(fs.freeMap, 0, 1, false);
    if h.Some? {
      var d := FirstRun(SetRun(fs.freeMap, h.value, 1, true), 0, BytesToSectors(size), false);
      if d.Some? {
        NewData(fs, h.value, d.value, size);
      }
    }
  }

  lemma PositiveSectors(size: nat)
    requires size < 0x8000_0000
    ensures BytesToSectors(size) > 0 <==> size > 0
  {
  }

  /** Freshly allocated data sectors were not leaked before. */
  lemma NewData(fs: Fs, h: nat, start: nat, size: nat)
    requires Inv(fs) && h < |fs.freeMap| && size < 0x8000_0000
    requires RunOf(SetRun(fs.freeMap, h, 1, true), start, BytesToSectors(size), false)
    ensures size > 0 ==> start in Range(start, BytesToSectors(size)) && start !in fs.leaked
    ensures size == 0 ==> Range(start, BytesToSectors(size)) == {}
    ensures ZeroRun(fs.disk[h := Header(DiskInode(start, size))], start, BytesToSectors(size))[h]
            == Header(DiskInode(start, size))
  {
    hide Range, BytesToSectors;
    PositiveSectors(size);
    assert SetRun(fs.freeMap, h, 1, true)[h];
  }
}
