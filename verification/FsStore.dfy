/** Creating a file, opening it, writing it chunk by chunk and closing it, as fsutil_extract does
    (filesys/fsutil.c), on a file system whose sectors in use are the first ones. */
module FsStore {
  import opened Options
  import opened Bitmap
  import opened Bytes
  import opened FsModel
  import opened FsOwnership
  import opened FsInvariant
  import opened FsRuns
  import opened FsTheorems
  import opened FsContent
  import FsOutcomes
  import InodeIO

  /** The copy loop: 512 bytes at a time; None is its panic at a short write. */
  ghost function WriteAll(fs: Fs, id: nat, bytes: seq<byte>): Option<Fs>
    requires id in fs.files
    decreases |bytes|
  {
    if |bytes| == 0 then Some(fs)
    else
      var n := if |bytes| > 512 then 512 else |bytes|;
      if WriteCount(fs, id, bytes[..n], n) != n then None
      else WriteAll(Write(fs, id, bytes[..n], n), id, bytes[n..])
  }

  /** One file put into the file system; None is a panic. */
  ghost function PutFile(fs: Fs, id: nat, name: Name, bytes: seq<byte>): Option<Fs> {
    if |fs.disk| != |fs.freeMap| then None
    else
      var (fs1, created) := Create(fs, name, |bytes|, NoFaults());
      if !created then None
      else
        var (fs2, opened') := Open(fs1, name, id, NoFaults());
        if !opened' || id !in fs2.files then None
        else
          match WriteAll(fs2, id, bytes)
          case None => None
          case Some(fs3) => if id in fs3.files then Some(Close(fs3, id)) else None
  }

  // ---------------------------------------------------------------
  // Creating
  // ---------------------------------------------------------------

  /** The header and the data of a new file. */
  ghost predicate Placing(fs: Fs, size: nat, h: nat, start: nat) {
    && FirstRun(fs.freeMap, 0, 1, false) == Some(h) && h < |fs.freeMap|
    && FirstRun(SetRun(fs.freeMap, h, 1, true), 0, BytesToSectors(size), false) == Some(start)
    && start + BytesToSectors(size) <= |fs.freeMap|
  }

  lemma CreateInEffect(fs: Fs, name: Name, size: nat, h: nat, start: nat)
    requires Inv(fs) && size < 0x8000_0000 && TakesName(fs.dir, name) && Placing(fs, size, h, start)
    ensures |fs.disk| == |fs.freeMap| && h < |fs.disk| && start + BytesToSectors(size) <= |fs.disk|
    ensures var (fs', r) := CreateIn(fs, name, size, NoFaults());
            && r && fs'.freeMap == Taken(fs.freeMap, h, DiskInode(start, size))
            && fs'.disk == Created(fs.disk, h, DiskInode(start, size))
            && fs'.dir == fs.dir[FreeSlot(fs.dir).value := Entry(true, name, h)]
  {
    hide Inv, BytesToSectors, FirstRun, SetRun, ZeroRun, Lookup, FreeSlot;
    SizesAgree(fs);
  }

  lemma OpenRootWorks(fs: Fs)
    requires Inv(fs)
    ensures OpenRoot(fs, NoFaults()).1
  {
    hide Inv, FindOpen;
    OnDevice(fs, 1);
  }

  lemma OnDevice(fs: Fs, s: nat)
    requires Inv(fs) && s in Kept(fs.dir)
    ensures s < |fs.disk|
  {
    LiveArePlaced(fs, s);
  }

  /** What a successful filesys_create leaves. */
  lemma CreateEffect(fs: Fs, name: Name, size: nat, h: nat, start: nat)
    requires Inv(fs) && size < 0x8000_0000 && TakesName(fs.dir, name) && Placing(fs, size, h, start)
    ensures |fs.disk| == |fs.freeMap| && h < |fs.disk| && start + BytesToSectors(size) <= |fs.disk|
    ensures var (fs', r) := Create(fs, name, size, NoFaults());
            && r && fs'.freeMap == Taken(fs.freeMap, h, DiskInode(start, size))
            && fs'.disk == Created(fs.disk, h, DiskInode(start, size))
            && fs'.dir == fs.dir[FreeSlot(fs.dir).value := Entry(true, name, h)]
  {
    hide *;
    SizesAgree(fs);
    OpenRootWorks(fs);
    OpenRootKeeps(fs, NoFaults());
    var (fs1, isOpen) := OpenRoot(fs, NoFaults());
    SamePlacing(fs, fs1, size, h, start);
    CreateInEffect(fs1, name, size, h, start);
    CreateInKeeps(fs1, name, size, NoFaults());
    CloseRootKeeps(CreateIn(fs1, name, size, NoFaults()).0);
    CreateCases(fs, name, size, NoFaults());
  }

  lemma SamePlacing(fs: Fs, fs1: Fs, size: nat, h: nat, start: nat)
    requires Placing(fs, size, h, start) && fs1.freeMap == fs.freeMap
    ensures Placing(fs1, size, h, start)
  {
  }

  lemma CreateCases(fs: Fs, name: Name, size: nat, ok: Faults)
    requires |fs.disk| == |fs.freeMap| && OpenRoot(fs, ok).1
    requires |OpenRoot(fs, ok).0.disk| == |OpenRoot(fs, ok).0.freeMap|
    ensures var (fs2, r) := CreateIn(OpenRoot(fs, ok).0, name, size, ok);
            Create(fs, name, size, ok) == (InodeClose(fs2, 1), r)
  {
  }

  // ---------------------------------------------------------------
  // Opening, writing, closing
  // ---------------------------------------------------------------

  lemma InodeOpenWorks(fs: Fs, s: nat)
    requires Inv(fs) && s in Kept(fs.dir)
    ensures InodeOpen(fs, s, true).1
  {
    hide Inv, FindOpen, Kept;
    OnDevice(fs, s);
  }

  /** filesys_open of a name that is there changes the table of open inodes and the open files. */
  lemma OpenEffect(fs: Fs, name: Name, id: nat)
    requires Inv(fs) && id !in fs.files && Lookup(fs.dir, name).Some?
    ensures var (fs', r) := Open(fs, name, id, NoFaults());
            && r && Inv(fs') && fs'.held == fs.held
            && fs' == fs.(opens := fs'.opens,
                          files := fs.files[id := File(fs.dir[Lookup(fs.dir, name).value].sector, false, 0)])
  {
    hide *;
    var i := Lookup(fs.dir, name).value;
    var s := fs.dir[i].sector;
    OpenRootWorks(fs);
    OpenRootKeeps(fs, NoFaults());
    var fs1 := OpenRoot(fs, NoFaults()).0;
    NamedAreKept(fs, i);
    InodeOpenWorks(fs1, s);
    InodeOpenKeeps(fs1, s, true);
    var fs2 := InodeOpen(fs1, s, true).0;
    HeldAfter(fs.held, fs1.held, fs2.held, s);
    CloseRootKeeps(fs2);
    var fs3 := InodeClose(fs2, 1);
    FileOpenKeeps(fs3, s, id, true);
    OpenCases(fs, name, id);
    OpenAsFileIs(fs3, s, id);
  }

  lemma HeldAfter(held: multiset<nat>, held1: multiset<nat>, held2: multiset<nat>, s: nat)
    requires held1 == held + multiset{1} && held2 == held1 + multiset{s} && s > 1
    ensures held2[1] > 0 && (held2 - multiset{1})[s] > 0 && held2 - multiset{1} - multiset{s} == held
  {
  }

  lemma OpenCases(fs: Fs, name: Name, id: nat)
    requires OpenRoot(fs, NoFaults()).1
    ensures var fs1 := OpenRoot(fs, NoFaults()).0;
            Lookup(fs1.dir, name).Some? ==>
              var s := fs1.dir[Lookup(fs1.dir, name).value].sector;
              InodeOpen(fs1, s, true).1 ==>
                Open(fs, name, id, NoFaults()) == FileOpen(InodeClose(InodeOpen(fs1, s, true).0, 1), s, id, true)
  {
  }

  lemma OpenAsFileIs(fs: Fs, s: nat, id: nat)
    ensures FileOpen(fs, s, id, true) ==
              (fs.(files := fs.files[id := File(s, false, 0)], held := fs.held - multiset{s}), true)
  {
  }

  /** Others' files are as they were. */
  ghost predicate OthersKept(fs: Fs, fs': Fs, s: nat) {
    && Inv(fs) && Inv(fs') && Live(fs') == Live(fs)
    && forall t | t in Live(fs) && t != s ::
         Placed(fs.disk, t) && Placed(fs'.disk, t) && |fs'.disk| == |fs.disk| <= 0x8000_0000
         && Content(fs'.disk, t) == Content(fs.disk, t) && fs'.disk[t] == fs.disk[t]
  }

  lemma OthersKeptAgain(fs: Fs, fs1: Fs, fs2: Fs, s: nat)
    requires OthersKept(fs, fs1, s) && OthersKept(fs1, fs2, s)
    ensures OthersKept(fs, fs2, s)
  {
    hide Inv, Live, Placed, Content;
  }

  /** One chunk that fits. */
  lemma WriteChunk(fs: Fs, id: nat, w: seq<byte>)
    requires Inv(fs) && id in fs.files && Denying(fs.files, fs.files[id].sector) == {}
    requires w != [] && Placed(fs.disk, fs.files[id].sector) && |fs.disk| <= 0x8000_0000
    requires fs.files[id].pos + |w| <= |Content(fs.disk, fs.files[id].sector)|
    ensures var fs', s, pos := Write(fs, id, w, |w|), fs.files[id].sector, fs.files[id].pos;
            && WriteCount(fs, id, w, |w|) == |w|
            && Inv(fs') && OthersKept(fs, fs', s)
            && fs' == fs.(disk := fs'.disk, files := fs.files[id := File(s, fs.files[id].denyWrite, pos + |w|)])
            && Placed(fs'.disk, s) && |fs'.disk| == |fs.disk| && fs'.disk[s] == fs.disk[s]
            && Content(fs'.disk, s) == Patch(Content(fs.disk, s), pos, w)
  {
    hide Inv, Live, Denying, Placed, Patch, Content, Write, WriteCount;
    WriteContents(fs, id, w, |w|);
    WriteKeeps(fs, id, w, |w|);
    FileLive(fs, id);
    assert w[..|w|] == w;
  }

  lemma FileLive(fs: Fs, id: nat)
    requires Inv(fs) && id in fs.files
    ensures fs.files[id].sector in Live(fs) && Placed(fs.disk, fs.files[id].sector)
    ensures forall t | t in Live(fs) :: Placed(fs.disk, t) && t < |fs.disk|
  {
    hide Inv, Live, Placed;
    FileEntry(fs, id);
    forall t | t in Live(fs)
      ensures Placed(fs.disk, t) && t < |fs.disk|
    {
      LiveArePlaced(fs, t);
      PlacedOnDevice(fs.disk, t);
    }
  }

  lemma PlacedOnDevice(disk: seq<Block>, t: nat)
    requires Placed(disk, t)
    ensures t < |disk|
  {
  }

  lemma SameDenial(files: map<nat, File>, id: nat, pos: nat, s: nat)
    requires id in files
    ensures Denying(files[id := files[id].(pos := pos)], s) == Denying(files, s)
  {
  }

  /** The copy loop into a file that has room from the position on and that nobody denies writes to:
      no short write, and the file's bytes are overwritten. */
  lemma {:induction false} WriteAllEffect(fs: Fs, id: nat, bytes: seq<byte>)
    requires Inv(fs) && id in fs.files && Denying(fs.files, fs.files[id].sector) == {}
    requires Placed(fs.disk, fs.files[id].sector) && |fs.disk| <= 0x8000_0000
    requires fs.files[id].pos + |bytes| <= |Content(fs.disk, fs.files[id].sector)|
    ensures WriteAll(fs, id, bytes).Some?
    ensures var fs', s, pos := WriteAll(fs, id, bytes).value, fs.files[id].sector, fs.files[id].pos;
            && Inv(fs') && OthersKept(fs, fs', s)
            && fs' == fs.(disk := fs'.disk, files := fs.files[id := File(s, fs.files[id].denyWrite, pos + |bytes|)])
            && Placed(fs'.disk, s) && |fs'.disk| == |fs.disk| && fs'.disk[s] == fs.disk[s]
            && Content(fs'.disk, s) == Patch(Content(fs.disk, s), pos, bytes)
    decreases |bytes|
  {
    hide Inv, Live, Denying, Placed, Patch, Content, Write, WriteCount, OthersKept;
    var s, pos := fs.files[id].sector, fs.files[id].pos;
    if |bytes| == 0 {
      PatchNothing(Content(fs.disk, s), pos, bytes);
      KeptAsIs(fs, s);
      assert fs.files[id := File(s, fs.files[id].denyWrite, pos)] == fs.files;
    } else {
      var n := if |bytes| > 512 then 512 else |bytes|;
      var w, rest := bytes[..n], bytes[n..];
      WriteChunk(fs, id, w);
      var fs1 := Write(fs, id, w, n);
      SameDenial(fs.files, id, pos + n, s);
      WriteAllEffect(fs1, id, rest);
      OthersKeptAgain(fs, fs1, WriteAll(fs1, id, rest).value, s);
      PatchAppend(Content(fs.disk, s), pos, w, rest);
      assert w + rest == bytes;
    }
  }

  lemma KeptAsIs(fs: Fs, s: nat)
    requires Inv(fs)
    ensures OthersKept(fs, fs, s)
  {
    hide Inv, Live, Placed, Content;
    forall t | t in Live(fs)
      ensures Placed(fs.disk, t) && |fs.disk| <= 0x8000_0000
    {
      LiveArePlaced(fs, t);
    }
  }

  // ---------------------------------------------------------------
  // One file put into a tidy file system
  // ---------------------------------------------------------------

  datatype Stored = Stored(name: Name, bytes: seq<byte>)

  /** No file is open, and the sectors in use are those below mark. */
  ghost predicate Tidy(fs: Fs, mark: nat) {
    && Inv(fs) && Quiescent(fs) && fs.files == map[]
    && mark <= |fs.freeMap| && forall x | 0 <= x < |fs.freeMap| :: fs.freeMap[x] <==> x < mark
  }

  ghost predicate EntryHolds(fs: Fs, e: Entry, f: Stored) {
    && e.inUse && e.name == f.name
    && Placed(fs.disk, e.sector) && |fs.disk| <= 0x8000_0000 && Content(fs.disk, e.sector) == f.bytes
  }

  /** The directory's entries are those files, in order, each with its bytes, and free slots. */
  ghost predicate Holds(fs: Fs, files: seq<Stored>) {
    && |files| <= |fs.dir|
    && (forall i | 0 <= i < |files| :: EntryHolds(fs, fs.dir[i], files[i]))
    && (forall i | |files| <= i < |fs.dir| :: !fs.dir[i].inUse)
  }

  /** How many sectors a file takes: its inode's and its data's. */
  function SectorsOf(bytes: seq<byte>): nat { 1 + BytesToSectors(|bytes|) }

  /** What filesys_create asks for. */
  ghost predicate FitsNext(files: seq<Stored>, f: Stored, slots: nat, mark: nat, size: nat) {
    && 1 <= |f.name| <= 14 && (forall i | 0 <= i < |files| :: files[i].name != f.name)
    && |files| < slots && mark + SectorsOf(f.bytes) <= size
  }

  lemma NextName(fs: Fs, files: seq<Stored>, name: Name)
    requires Holds(fs, files)
    ensures TakesName(fs.dir, name) <==> 1 <= |name| <= 14 && (forall i | 0 <= i < |files| :: files[i].name != name)
                                         && |files| < |fs.dir|
    ensures |files| < |fs.dir| ==> FreeSlot(fs.dir) == Some(|files|)
  {
    hide Placed, Content;
    forall i | 0 <= i < |files|
      ensures fs.dir[i].inUse && fs.dir[i].name == files[i].name
    {
      assert EntryHolds(fs, fs.dir[i], files[i]);
    }
    if |files| < |fs.dir| { assert !fs.dir[|files|].inUse; }
  }

  /** Where filesys_create finds its sectors. */
  lemma NextSectors(fs: Fs, mark: nat, size: nat)
    requires Tidy(fs, mark)
    ensures RoomFor(fs, size) <==> mark + 1 + BytesToSectors(size) <= |fs.freeMap|
    ensures RoomFor(fs, size) ==>
              var start := if BytesToSectors(size) > 0 then mark + 1 else 0;
              && Placing(fs, size, mark, start) && mark < |fs.freeMap|
              && var after := Taken(fs.freeMap, mark, DiskInode(start, size));
                 forall x | 0 <= x < |after| :: after[x] <==> x < mark + 1 + BytesToSectors(size)
  {
    hide Inv, BytesToSectors;
    FirstRunAfter(fs.freeMap, mark, 1);
    if mark < |fs.freeMap| {
      var marked := SetRun(fs.freeMap, mark, 1, true);
      if BytesToSectors(size) > 0 {
        FirstRunAfter(marked, mark + 1, BytesToSectors(size));
      } else {
        FirstRunNothing(marked);
      }
    }
  }

  lemma FirstRunNothing(bits: seq<bool>)
    ensures FirstRun(bits, 0, 0, false) == Some(0)
  {
    FirstRunUnique(bits, 0, 0, false, Some(0), FirstRun(bits, 0, 0, false));
  }

  /** filesys_create has entered file f, its bytes still to come. */
  ghost predicate Entered(fs: Fs, files: seq<Stored>, f: Stored, mark: nat) {
    && Inv(fs) && Quiescent(fs)
    && mark + SectorsOf(f.bytes) <= |fs.freeMap| == |fs.disk| <= 0x8000_0000
    && (forall x | 0 <= x < |fs.freeMap| :: fs.freeMap[x] <==> x < mark + SectorsOf(f.bytes))
    && |files| < |fs.dir| && fs.dir[|files|] == Entry(true, f.name, mark)
    && (forall i | 0 <= i < |files| :: EntryHolds(fs, fs.dir[i], files[i]))
    && (forall i | |files| < i < |fs.dir| :: !fs.dir[i].inUse)
    && mark < |fs.disk| && fs.disk[mark].Header? && fs.disk[mark].inode.length == |f.bytes|
  }

  lemma CreateTakes(fs: Fs, mark: nat, files: seq<Stored>, f: Stored)
    requires Tidy(fs, mark) && Holds(fs, files) && |f.bytes| < 0x8000_0000
    ensures |fs.disk| == |fs.freeMap|
    ensures Create(fs, f.name, |f.bytes|, NoFaults()).1 <==> FitsNext(files, f, |fs.dir|, mark, |fs.freeMap|)
  {
    hide Inv, RoomFor, TakesName, Holds, BytesToSectors, OpenRoot, Create, Quiescent;
    SizesAgree(fs);
    CreateSucceeds(fs, f.name, |f.bytes|, NoFaults());
    OpenRootWorks(fs);
    NextName(fs, files, f.name);
    NextSectors(fs, mark, |f.bytes|);
  }

  lemma CreateEnters(fs: Fs, mark: nat, files: seq<Stored>, f: Stored)
    requires Tidy(fs, mark) && Holds(fs, files) && |f.bytes| < 0x8000_0000
    requires FitsNext(files, f, |fs.dir|, mark, |fs.freeMap|)
    ensures |fs.disk| == |fs.freeMap|
    ensures var fs' := Create(fs, f.name, |f.bytes|, NoFaults()).0;
            && Entered(fs', files, f, mark) && fs'.files == map[] && |fs'.dir| == |fs.dir|
               && |fs'.freeMap| == |fs.freeMap|
  {
    hide Inv, Placing, TakesName, BytesToSectors, Create, Live, Created, Taken, EntryHolds, Lookup, FreeSlot, RoomFor;
    SizesAgree(fs);
    NextName(fs, files, f.name);
    NextSectors(fs, mark, |f.bytes|);
    var start := if BytesToSectors(|f.bytes|) > 0 then mark + 1 else 0;
    CreateEffect(fs, f.name, |f.bytes|, mark, start);
    CreateKeeps(fs, f.name, |f.bytes|, NoFaults());
    var fs' := Create(fs, f.name, |f.bytes|, NoFaults()).0;
    CreatedHeader(fs.disk, mark, start, |f.bytes|);
    SizesAgree(fs');
    HeadersStay(fs');
    forall i | 0 <= i < |files|
      ensures EntryHolds(fs', fs'.dir[i], files[i])
    {
      EntryStays(fs, fs', i, files[i]);
    }
  }

  lemma CreatedHeader(disk: seq<Block>, mark: nat, start: nat, size: nat)
    requires mark < |disk| && start + BytesToSectors(size) <= |disk|
    requires start == if BytesToSectors(size) > 0 then mark + 1 else 0
    ensures Created(disk, mark, DiskInode(start, size))[mark] == Header(DiskInode(start, size))
  {
    hide BytesToSectors;
  }

  /** A file that is in the directory keeps its bytes. */
  lemma EntryStays(fs: Fs, fs': Fs, i: nat, f: Stored)
    requires Inv(fs) && i < |fs.dir| && EntryHolds(fs, fs.dir[i], f) && |fs'.dir| == |fs.dir| && fs'.dir[i] == fs.dir[i]
    requires KeepsCovered(fs.disk, fs'.disk, Live(fs))
    ensures EntryHolds(fs', fs'.dir[i], f)
  {
    hide Inv, Placed, Content, Covers, Live;
    var t := fs.dir[i].sector;
    EntryLive(fs, i);
    OneCovered(fs.disk, fs'.disk, Live(fs), t);
    ContentKept(fs.disk, fs'.disk, t);
    SameSize(fs.disk, fs'.disk, Live(fs));
  }

  lemma SameSize(disk: seq<Block>, disk': seq<Block>, live: set<nat>)
    requires KeepsCovered(disk, disk', live)
    ensures |disk| == |disk'|
  {
  }

  lemma EntryLive(fs: Fs, i: nat)
    requires Inv(fs) && i < |fs.dir| && fs.dir[i].inUse
    ensures fs.dir[i].sector in Live(fs) && fs.dir[i].sector in Kept(fs.dir)
    ensures forall j | 0 <= j < |fs.dir| && j != i && fs.dir[j].inUse ::
              fs.dir[j].sector != fs.dir[i].sector && fs.dir[j].name != fs.dir[i].name
  {
    hide Own, TableOk;
    NamedAreKept(fs, i);
  }

  /** Opening the new file, the copy loop and closing it. */
  lemma FillFile(fs: Fs, mark: nat, id: nat, files: seq<Stored>, f: Stored)
    requires Entered(fs, files, f, mark) && fs.files == map[]
    ensures Open(fs, f.name, id, NoFaults()).1
    ensures var fs2 := Open(fs, f.name, id, NoFaults()).0;
            id in fs2.files && WriteAll(fs2, id, f.bytes).Some? && id in WriteAll(fs2, id, f.bytes).value.files
    ensures var fs' := Close(WriteAll(Open(fs, f.name, id, NoFaults()).0, id, f.bytes).value, id);
            && Tidy(fs', mark + SectorsOf(f.bytes)) && Holds(fs', files + [f])
            && |fs'.dir| == |fs.dir| && |fs'.freeMap| == |fs.freeMap|
  {
    hide Inv, Open, Close, WriteAll, Placed, Content, Live, Kept, Lookup, BytesToSectors, Denying, Patch, OthersKept;
    hide EntryHolds;
    var k := |files|;
    FsOutcomes.NameFound(fs, k);
    OpenEffect(fs, f.name, id);
    var fs2 := Open(fs, f.name, id, NoFaults()).0;
    FileLive(fs2, id);
    NotDenied(fs2.files, id, mark);
    assert |Content(fs2.disk, mark)| == |f.bytes|;
    WriteAllEffect(fs2, id, f.bytes);
    var fs3 := WriteAll(fs2, id, f.bytes).value;
    PatchWhole(Content(fs2.disk, mark), f.bytes);
    EntryLive(fs, k);
    CloseKeeps(fs3, id);
    var fs' := Close(fs3, id);
    assert fs3.files - {id} == map[];
    forall i | 0 <= i < k
      ensures EntryHolds(fs', fs'.dir[i], files[i])
    {
      EntryWritten(fs, fs2, fs3, fs', i, k, files[i]);
    }
    assert EntryHolds(fs', fs'.dir[k], f) by { NewEntryHolds(fs', k, f); }
    assert (files + [f])[k] == f && forall i | 0 <= i < k :: (files + [f])[i] == files[i];
  }

  lemma NewEntryHolds(fs: Fs, k: nat, f: Stored)
    requires k < |fs.dir| && fs.dir[k].inUse && fs.dir[k].name == f.name
    requires Placed(fs.disk, fs.dir[k].sector) && |fs.disk| <= 0x8000_0000
             && Content(fs.disk, fs.dir[k].sector) == f.bytes
    ensures EntryHolds(fs, fs.dir[k], f)
  {
  }

  lemma NotDenied(files: map<nat, File>, id: nat, s: nat)
    requires files == map[id := File(s, false, 0)]
    ensures Denying(files, s) == {}
  {
  }

  lemma EntryWritten(fs: Fs, fs2: Fs, fs3: Fs, fs': Fs, i: nat, k: nat, f: Stored)
    requires Inv(fs) && i < |fs.dir| && k < |fs.dir| && i != k && fs.dir[k].inUse && EntryHolds(fs, fs.dir[i], f)
    requires fs2.disk == fs.disk && fs2.dir == fs.dir && OthersKept(fs2, fs3, fs.dir[k].sector)
    requires fs'.disk == fs3.disk && fs'.dir == fs.dir
    ensures EntryHolds(fs', fs'.dir[i], f)
  {
    hide Inv, Placed, Content, Live;
    EntryLive(fs, k);
    EntryLive(fs2, i);
  }

  /** A tidy file system takes the next file exactly when it fits, and then holds it with the others. */
  lemma PutFileEffect(fs: Fs, mark: nat, id: nat, files: seq<Stored>, f: Stored)
    requires Tidy(fs, mark) && Holds(fs, files) && |f.bytes| < 0x8000_0000
    ensures PutFile(fs, id, f.name, f.bytes).Some? <==> FitsNext(files, f, |fs.dir|, mark, |fs.freeMap|)
    ensures PutFile(fs, id, f.name, f.bytes).Some? ==>
              var fs' := PutFile(fs, id, f.name, f.bytes).value;
              && Tidy(fs', mark + SectorsOf(f.bytes)) && Holds(fs', files + [f])
              && |fs'.dir| == |fs.dir| && |fs'.freeMap| == |fs.freeMap|
  {
    hide Tidy, Holds, FitsNext, Create, Open, WriteAll, Close, Entered, SectorsOf;
    CreateTakes(fs, mark, files, f);
    if FitsNext(files, f, |fs.dir|, mark, |fs.freeMap|) {
      CreateEnters(fs, mark, files, f);
      FillFile(Create(fs, f.name, |f.bytes|, NoFaults()).0, mark, id, files, f);
    }
  }

  // ---------------------------------------------------------------
  // Which files fit
  // ---------------------------------------------------------------

  ghost function TotalSectors(files: seq<Stored>): nat {
    if files == [] then 0 else TotalSectors(files[..|files| - 1]) + SectorsOf(files[|files| - 1].bytes)
  }

  /** A directory of that many slots takes the files: names of 1 to 14 characters, all different; and
      sectors from mark on hold them: one for each inode and one for each 512 bytes or part of them. */
  ghost predicate AllFit(files: seq<Stored>, slots: nat, mark: nat, size: nat) {
    && |files| <= slots
    && (forall i | 0 <= i < |files| :: 1 <= |files[i].name| <= 14)
    && (forall i, j | 0 <= i < j < |files| :: files[i].name != files[j].name)
    && mark + TotalSectors(files) <= size
  }

  lemma FitsOneMore(files: seq<Stored>, f: Stored, slots: nat, mark: nat, size: nat)
    ensures TotalSectors(files + [f]) == TotalSectors(files) + SectorsOf(f.bytes)
    ensures AllFit(files + [f], slots, mark, size) <==>
              AllFit(files, slots, mark, size) && FitsNext(files, f, slots, mark + TotalSectors(files), size)
  {
    hide SectorsOf;
    var all := files + [f];
    assert all[..|files|] == files && all[|files|] == f;
    assert forall i | 0 <= i < |files| :: all[i] == files[i];
  }

  /** If some do not fit, more do not. */
  lemma {:induction false} FitsFewer(files: seq<Stored>, rest: seq<Stored>, slots: nat, mark: nat, size: nat)
    requires AllFit(files + rest, slots, mark, size)
    ensures AllFit(files, slots, mark, size)
    decreases |rest|
  {
    hide AllFit, FitsNext;
    if rest == [] {
      assert files + rest == files;
    } else {
      var n := |rest| - 1;
      assert files + rest == (files + rest[..n]) + [rest[n]];
      FitsOneMore(files + rest[..n], rest[n], slots, mark, size);
      FitsFewer(files, rest[..n], slots, mark, size);
    }
  }

  /** A freshly formatted file system holds nothing, on the sectors after the two system files. */
  lemma FormatIsTidy(size: nat)
    requires 2 <= size <= 0x8000_0000 && Format(size).1
    ensures var fs, mark := Format(size).0, 3 + BytesToSectors(MapFileSize(size));
            Tidy(fs, mark) && Holds(fs, []) && |fs.dir| == 16 && |fs.freeMap| == size
  {
    hide Inv, BytesToSectors, Format;
    FormatEstablishes(size);
    FormattedMap(size);
  }

  /** On a freshly formatted device of 64 sectors, a file "a" of 512 bytes is created; creating it
      again fails, and its data sector is lost. */
  lemma SecondCreateLeaks()
    ensures Format(64).1 && |Format(64).0.disk| == |Format(64).0.freeMap|
    ensures var (fs1, r1) := Create(Format(64).0, [97], 512, NoFaults());
            && r1 && |fs1.disk| == |fs1.freeMap| && fs1.leaked == {}
            && var (fs2, r2) := Create(fs1, [97], 512, NoFaults());
               !r2 && fs2.leaked != {}
  {
    hide Inv, Format, Create, Live, Lookup, FreeSlot, BytesToSectors, RoomFor, EntryHolds, Entered, Tidy, Placed;
    var f := Stored([97], Zeros(512));
    SmallCounts();
    FormatEstablishes(64);
    FormatIsTidy(64);
    var mark := 3 + BytesToSectors(MapFileSize(64));
    var fs0 := Format(64).0;
    CreateTakes(fs0, mark, [], f);
    CreateEnters(fs0, mark, [], f);
    TidyParts(fs0, mark);
    CreateKeeps(fs0, [97], 512, NoFaults());
    var fs1 := Create(fs0, [97], 512, NoFaults()).0;
    EnteredParts(fs1, f, mark);
    FormattedMap(64);
    NextSectors(fs1, mark + SectorsOf(f.bytes), 512);
    OpenRootWorks(fs1);
    CreateLeaks(fs1, [97], 512, NoFaults());
    CreateSucceeds(fs1, [97], 512, NoFaults());
  }

  lemma SmallCounts()
    ensures BytesToSectors(MapFileSize(64)) == 1 && BytesToSectors(512) == 1
  {
  }

  lemma TidyParts(fs: Fs, mark: nat)
    requires Tidy(fs, mark)
    ensures Inv(fs) && Quiescent(fs)
  {
    hide Inv;
  }

  lemma EnteredParts(fs: Fs, f: Stored, mark: nat)
    requires Entered(fs, [], f, mark) && fs.files == map[]
    ensures Inv(fs) && Tidy(fs, mark + SectorsOf(f.bytes)) && Lookup(fs.dir, f.name).Some?
  {
    hide Inv, Lookup;
    FsOutcomes.NameFound(fs, 0);
  }
}
