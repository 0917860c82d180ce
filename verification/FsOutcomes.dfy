/** When the operations of the file system succeed, and what they leave: names, sectors and files
    (filesys/filesys.c, directory.c, inode.c, file.c). */
module FsOutcomes {
  import opened Lists
  import opened Options
  import opened Bitmap
  import opened Bytes
  import opened FsModel
  import opened FsOwnership
  import opened FsInvariant
  import opened FsRuns
  import opened FsTheorems
  import opened FsContent
  import InodeIO

  // ---------------------------------------------------------------
  // The free map follows from the live inodes
  // ---------------------------------------------------------------

  /** The table has an entry for an inode exactly while something refers to it. */
  lemma OpenIfReferred(fs: Fs, s: nat)
    requires Inv(fs)
    ensures s in OpenSectors(fs.opens) <==> OnFile(fs.files, s) != {} || fs.held[s] > 0
  {
    hide DirOk, Own;
    if s in OpenSectors(fs.opens) {
      var i :| 0 <= i < |fs.opens| && fs.opens[i].sector == s;
      assert RecOk(fs.opens[i], fs.disk, fs.files, fs.held, Kept(fs.dir));
      if OnFile(fs.files, s) == {} { assert |OnFile(fs.files, s)| == 0; }
    }
  }

  /** fs' has the sectors of inode s free, if gone, and otherwise those of fs in use. */
  ghost predicate Frees(fs: Fs, fs': Fs, s: nat, gone: bool) {
    && |fs'.freeMap| == |fs.freeMap|
    && forall x | 0 <= x < |fs.freeMap| :: fs'.freeMap[x] <==> fs.freeMap[x] && !(gone && Covers(fs.disk, s, x))
  }

  lemma FreedByLive(fs: Fs, fs': Fs, s: nat, gone: bool)
    requires Inv(fs) && Inv(fs') && fs'.disk == fs.disk && fs'.leaked == fs.leaked
    requires gone ==> s in Live(fs)
    requires Live(fs') == if gone then Live(fs) - {s} else Live(fs)
    ensures Frees(fs, fs', s, gone)
  {
    hide Live, TableOk, DirOk, Covers, Placed;
    forall x | 0 <= x < |fs.freeMap|
      ensures fs'.freeMap[x] <==> fs.freeMap[x] && !(gone && Covers(fs.disk, s, x))
    {
      if Owned(fs.disk, Live(fs), x) && !(gone && Covers(fs.disk, s, x)) {
        var t :| t in Live(fs) && Covers(fs.disk, t, x);
        assert t in Live(fs') && Covers(fs.disk, t, x);
      }
      if Owned(fs.disk, Live(fs'), x) {
        var t :| t in Live(fs') && Covers(fs.disk, t, x);
        assert t in Live(fs) && Covers(fs.disk, t, x);
      }
    }
  }

  // ---------------------------------------------------------------
  // filesys_remove
  // ---------------------------------------------------------------

  /** filesys_remove succeeds exactly when the root directory can be opened, has the name, and the
      named inode can be opened; if memory suffices, exactly when the name is there. */
  lemma RemoveSucceeds(fs: Fs, name: Name, ok: Faults)
    requires Inv(fs)
    ensures Remove(fs, name, ok).1 <==>
              && RootOpens(fs, ok) && Lookup(fs.dir, name).Some?
              && Openable(fs, fs.dir[Lookup(fs.dir, name).value].sector, ok.inode)
    ensures ok == NoFaults() ==> (Remove(fs, name, ok).1 <==> Lookup(fs.dir, name).Some?)
  {
    hide Inv, Live, InodeClose, OpenRoot, Lookup, DirRemove, OpenSectors;
    RootOpensIff(fs, ok);
    OpenRootKeeps(fs, ok);
    var fs1 := OpenRoot(fs, ok).0;
    match Lookup(fs.dir, name)
    case None =>
      DirRemoveCases(fs1, name, ok.inode, 0);
    case Some(i) =>
      NamedAreKept(fs, i);
      DirRemoveCases(fs1, name, ok.inode, i);
      if RootOpens(fs, ok) {
        InodeOpens(fs1, fs.dir[i].sector, ok.inode);
        SameOpen(fs, fs1, fs.dir[i].sector);
      }
  }

  /** Holding the root directory opens no other file. */
  lemma SameOpen(fs: Fs, fs1: Fs, s: nat)
    requires Inv(fs) && Inv(fs1) && fs1.files == fs.files && fs1.held == fs.held + multiset{1} && s != 1
    ensures s in OpenSectors(fs1.opens) <==> s in OpenSectors(fs.opens)
  {
    hide Inv, OpenSectors;
    OpenIfReferred(fs, s);
    OpenIfReferred(fs1, s);
  }

  /** A removal that succeeds frees the slot of the name and leaves every other entry. */
  lemma RemovedEntry(fs: Fs, name: Name, ok: Faults)
    requires Inv(fs) && Remove(fs, name, ok).1
    ensures Lookup(fs.dir, name).Some?
    ensures var i := Lookup(fs.dir, name).value;
            Remove(fs, name, ok).0.dir == fs.dir[i := fs.dir[i].(inUse := false)]
  {
    hide *;
    RemoveSucceeds(fs, name, ok);
    var i := Lookup(fs.dir, name).value;
    var s := fs.dir[i].sector;
    OpenRootKeeps(fs, ok);
    RemoveCases(fs, name, ok);
    var fs1 := OpenRoot(fs, ok).0;
    DirRemoveCases(fs1, name, ok.inode, i);
    NamedAreKept(fs1, i);
    InodeOpenKeeps(fs1, s, ok.inode);
    var fs2 := InodeOpen(fs1, s, ok.inode).0;
    EraseKeeps(fs2, i);
    var fs3 := MarkRemoved(fs2.(dir := fs2.dir[i := fs2.dir[i].(inUse := false)]), s);
    InodeCloseKeeps(fs3, s);
    DirRemoveKeeps(fs1, name, ok.inode);
    CloseRootKeeps(DirRemove(fs1, name, ok.inode).0);
  }

  lemma RemoveCases(fs: Fs, name: Name, ok: Faults)
    requires Remove(fs, name, ok).1
    ensures var fs1 := OpenRoot(fs, ok).0;
            && OpenRoot(fs, ok).1 && DirRemove(fs1, name, ok.inode).1
            && Remove(fs, name, ok).0 == InodeClose(DirRemove(fs1, name, ok.inode).0, 1)
  {
  }

  /** What it frees: the sectors of the file at once if nobody has it open, else none yet. Open
      files, and all bytes on the device, stay. */
  lemma RemoveFrees(fs: Fs, name: Name, ok: Faults)
    requires Inv(fs) && Quiescent(fs) && Remove(fs, name, ok).1
    ensures Lookup(fs.dir, name).Some?
    ensures var fs', i := Remove(fs, name, ok).0, Lookup(fs.dir, name).value;
            && fs'.dir == fs.dir[i := fs.dir[i].(inUse := false)]
            && fs'.files == fs.files && fs'.disk == fs.disk && fs'.leaked == fs.leaked
            && Frees(fs, fs', fs.dir[i].sector, OnFile(fs.files, fs.dir[i].sector) == {})
  {
    hide Inv, Lookup, Frees, OnFile, OpenSectors, Named, Remove;
    RemoveKeeps(fs, name, ok);
    RemovedEntry(fs, name, ok);
    var fs', i := Remove(fs, name, ok).0, Lookup(fs.dir, name).value;
    var s := fs.dir[i].sector;
    NamedAreKept(fs, i);
    SameTable(fs, fs');
    OpenIfReferred(fs, s);
    ErasedNames(fs, i);
    FreedByLive(fs, fs', s, OnFile(fs.files, s) == {});
  }

  lemma ErasedNames(fs: Fs, i: nat)
    requires Inv(fs) && i < |fs.dir| && fs.dir[i].inUse
    ensures Named(fs.dir[i := fs.dir[i].(inUse := false)]) == Named(fs.dir) - {fs.dir[i].sector}
  {
    NamedErase(fs.dir, i);
  }

  /** The same files and held references have the same inodes open. */
  lemma SameTable(fs: Fs, fs': Fs)
    requires Inv(fs) && Inv(fs') && fs'.files == fs.files && fs'.held == fs.held
    ensures OpenSectors(fs'.opens) == OpenSectors(fs.opens)
  {
    hide Inv;
    forall s
      ensures s in OpenSectors(fs'.opens) <==> s in OpenSectors(fs.opens)
    {
      OpenIfReferred(fs, s);
      OpenIfReferred(fs', s);
    }
  }

  /** file_close frees the sectors of a removed file with its last opener, and otherwise none. */
  lemma CloseFrees(fs: Fs, id: nat)
    requires Inv(fs) && Quiescent(fs) && id in fs.files
    ensures var fs', s := Close(fs, id), fs.files[id].sector;
            && fs'.files == fs.files - {id} && fs'.dir == fs.dir && fs'.disk == fs.disk && fs'.leaked == fs.leaked
            && Frees(fs, fs', s, s > 1 && s !in Named(fs.dir) && OnFile(fs.files, s) == {id})
  {
    hide Inv, Frees, OpenSectors, Named, Close, AllowWrite;
    CloseKeeps(fs, id);
    var fs', s := Close(fs, id), fs.files[id].sector;
    OpenIfReferred(fs', s);
    FileIsOpen(fs, id);
    assert OnFile(fs'.files, s) == OnFile(fs.files, s) - {id};
    assert fs'.held[s] > 0 <==> s == 0;
    assert s in Live(fs') <==> s in Kept(fs.dir) || OnFile(fs.files, s) != {id};
    assert Live(fs') == if s in Live(fs') then Live(fs) else Live(fs) - {s};
    FreedByLive(fs, fs', s, s !in Live(fs'));
  }

  // ---------------------------------------------------------------
  // filesys_open and file_reopen
  // ---------------------------------------------------------------

  /** filesys_open succeeds exactly when the root directory and the named inode can be opened and
      there is memory for the file; if memory suffices, exactly when the name is there. Either
      way no sector, name or byte changes. */
  lemma OpenSucceeds(fs: Fs, name: Name, id: nat, ok: Faults)
    requires Inv(fs) && id !in fs.files
    ensures var (fs', r) := Open(fs, name, id, ok);
            && (r <==> && RootOpens(fs, ok) && Lookup(fs.dir, name).Some?
                       && Openable(fs, fs.dir[Lookup(fs.dir, name).value].sector, ok.inode) && ok.file)
            && (ok == NoFaults() ==> (r <==> Lookup(fs.dir, name).Some?))
            && fs'.dir == fs.dir && fs'.disk == fs.disk && fs'.freeMap == fs.freeMap
            && fs'.files == if r then fs.files[id := File(fs.dir[Lookup(fs.dir, name).value].sector, false, 0)]
                            else fs.files
  {
    hide Inv, Live, Lookup, Open, OpenSectors;
    OpenKeeps(fs, name, id, ok);
    OpenIff(fs, name, id, ok);
    if Open(fs, name, id, ok).1 { EntryIsLive(fs, Lookup(fs.dir, name).value); }
    SameMap(fs, Open(fs, name, id, ok).0, id);
  }

  lemma EntryIsLive(fs: Fs, i: nat)
    requires Inv(fs) && i < |fs.dir| && fs.dir[i].inUse
    ensures fs.dir[i].sector in Live(fs)
  {
    hide Inv, Own, TableOk, OpenSectors;
    NamedAreKept(fs, i);
  }

  lemma OpenIff(fs: Fs, name: Name, id: nat, ok: Faults)
    requires Inv(fs)
    ensures Open(fs, name, id, ok).1 <==>
              && RootOpens(fs, ok) && Lookup(fs.dir, name).Some?
              && Openable(fs, fs.dir[Lookup(fs.dir, name).value].sector, ok.inode) && ok.file
  {
    hide Inv, Live, InodeClose, InodeOpen, OpenRoot, Lookup, OpenSectors, RootOpens;
    RootOpensIff(fs, ok);
    OpenRootKeeps(fs, ok);
    var fs1 := OpenRoot(fs, ok).0;
    if RootOpens(fs, ok) && Lookup(fs.dir, name).Some? {
      var i := Lookup(fs.dir, name).value;
      NamedAreKept(fs, i);
      InodeOpens(fs1, fs.dir[i].sector, ok.inode);
      SameOpen(fs, fs1, fs.dir[i].sector);
    }
  }

  /** One more open file of a live inode, or none, leaves the sectors in use. */
  lemma SameMap(fs: Fs, fs': Fs, id: nat)
    requires Inv(fs) && Inv(fs') && fs'.held == fs.held && fs'.dir == fs.dir && fs'.disk == fs.disk
    requires fs'.leaked == fs.leaked && id !in fs.files
    requires fs'.files == fs.files || (id in fs'.files && fs'.files == fs.files[id := fs'.files[id]]
                                       && fs'.files[id].sector in Live(fs))
    ensures fs'.freeMap == fs.freeMap
  {
    hide Inv, OpenSectors;
    forall s
      ensures s in Live(fs') <==> s in Live(fs)
    {
      OpenIfReferred(fs, s);
      OpenIfReferred(fs', s);
      if fs'.files != fs.files { FileAddedTo(fs.files, id, fs'.files[id], s); }
    }
    assert Live(fs') == Live(fs);
    FreedByLive(fs, fs', 0, false);
  }

  lemma FileAddedTo(files: map<nat, File>, id: nat, f: File, s: nat)
    requires id !in files
    ensures OnFile(files[id := f], s) == OnFile(files, s) + if s == f.sector then {id} else {}
  {
  }

  /** file_reopen succeeds exactly when there is memory for the file. */
  lemma ReopenSucceeds(fs: Fs, id: nat, id2: nat, ok: Faults)
    requires Inv(fs) && id in fs.files && id2 !in fs.files
    ensures var (fs', r) := Reopen(fs, id, id2, ok);
            && (r <==> ok.file)
            && fs'.dir == fs.dir && fs'.disk == fs.disk && fs'.freeMap == fs.freeMap
            && fs'.files == if r then fs.files[id2 := File(fs.files[id].sector, false, 0)] else fs.files
  {
    hide Inv, Live, Reopen;
    ReopenKeeps(fs, id, id2, ok);
    ReopenIff(fs, id, id2, ok);
    FileEntry(fs, id);
    SameMap(fs, Reopen(fs, id, id2, ok).0, id2);
  }

  lemma ReopenIff(fs: Fs, id: nat, id2: nat, ok: Faults)
    requires Inv(fs) && id in fs.files
    ensures Reopen(fs, id, id2, ok).1 <==> ok.file
  {
    hide Inv, InodeClose;
    FileIsOpen(fs, id);
  }

  // ---------------------------------------------------------------
  // filesys_create
  // ---------------------------------------------------------------

  /** fs' has a new file: the name in the first free slot, under an inode sector that was free; the
      file is as long as asked for and all zeros. */
  ghost predicate NewFile(fs: Fs, fs': Fs, name: Name, size: nat) {
    var i := FreeSlot(fs.dir);
    && i.Some? && |fs'.dir| == |fs.dir|
    && fs'.dir == fs.dir[i.value := Entry(true, name, fs'.dir[i.value].sector)]
    && var s := fs'.dir[i.value].sector;
       && s < |fs.freeMap| && !fs.freeMap[s] && s !in Live(fs)
       && Placed(fs'.disk, s) && |fs'.disk| <= 0x8000_0000
       && Content(fs'.disk, s) == Zeros(size)
  }

  /** A creation that succeeds makes a new file. */
  lemma CreateMakesFile(fs: Fs, name: Name, size: nat, ok: Faults)
    requires Inv(fs) && size < 0x8000_0000
    ensures |fs.disk| == |fs.freeMap|
    ensures Create(fs, name, size, ok).1 ==> NewFile(fs, Create(fs, name, size, ok).0, name, size)
  {
    hide *;
    SizesAgree(fs);
    if Create(fs, name, size, ok).1 {
      OpenRootKeeps(fs, ok);
      var fs1 := OpenRoot(fs, ok).0;
      CreateCases(fs, name, size, ok);
      CreateInKeeps(fs1, name, size, ok);
      var fs2 := CreateIn(fs1, name, size, ok).0;
      CloseRootKeeps(fs2);
      CreateInEnters(fs1, name, size, ok);
      NewFileSeen(fs, fs1, fs2, InodeClose(fs2, 1), name, size);
    }
  }

  lemma NewFileSeen(fs: Fs, fs1: Fs, fs2: Fs, fs': Fs, name: Name, size: nat)
    requires NewFile(fs1, fs2, name, size)
    requires fs1.dir == fs.dir && fs1.freeMap == fs.freeMap && Live(fs1) == Live(fs)
    requires fs'.dir == fs2.dir && fs'.disk == fs2.disk
    ensures NewFile(fs, fs', name, size)
  {
    hide Live, Placed, Content, FreeSlot;
  }

  lemma CreateCases(fs: Fs, name: Name, size: nat, ok: Faults)
    requires |fs.disk| == |fs.freeMap| && Create(fs, name, size, ok).1
    ensures var fs1 := OpenRoot(fs, ok).0;
            && OpenRoot(fs, ok).1 && |fs1.disk| == |fs1.freeMap| && CreateIn(fs1, name, size, ok).1
            && Create(fs, name, size, ok).0 == InodeClose(CreateIn(fs1, name, size, ok).0, 1)
  {
  }

  lemma CreateInEnters(fs: Fs, name: Name, size: nat, ok: Faults)
    requires Inv(fs) && size < 0x8000_0000 && |fs.disk| == |fs.freeMap| && CreateIn(fs, name, size, ok).1
    ensures NewFile(fs, CreateIn(fs, name, size, ok).0, name, size)
  {
    hide Inv, Live, Placed, Content, BytesToSectors, ZeroRun, FirstRun, SetRun, Lookup, FreeSlot;
    HeaderAllocated(fs, ok.headerWrite);
    var (fs1, header) := Allocate(fs, 1, ok.headerWrite);
    var s := header.value;
    InodeCreateKeeps(fs, s, size, ok.diskInode, ok.dataWrite);
    NewContent(fs, fs1, s, size, ok);
  }

  lemma NewContent(fs: Fs, fs1: Fs, s: nat, size: nat, ok: Faults)
    requires Inv(fs) && size < 0x8000_0000 && |fs.disk| == |fs.freeMap| && s < |fs.disk|
    requires RunOf(fs.freeMap, s, 1, false) && fs1 == fs.(freeMap := SetRun(fs.freeMap, s, 1, true))
    requires InodeCreate(fs1, s, size, ok.diskInode, ok.dataWrite).1
    ensures var fs2 := InodeCreate(fs1, s, size, ok.diskInode, ok.dataWrite).0;
            Placed(fs2.disk, s) && |fs2.disk| <= 0x8000_0000 && Content(fs2.disk, s) == Zeros(size)
  {
    hide Inv, Live, FirstRun, SetRun;
    InodeCreateKeeps(fs, s, size, ok.diskInode, ok.dataWrite);
    var fs2 := InodeCreate(fs1, s, size, ok.diskInode, ok.dataWrite).0;
    assert s in Live(fs) + {s};
    PlacedInOwn(fs2.freeMap, fs2.disk, Live(fs) + {s}, fs.leaked, s);
    ZeroContent(fs2.disk, s);
  }

  lemma PlacedInOwn(freeMap: seq<bool>, disk: seq<Block>, live: set<nat>, leaked: set<nat>, s: nat)
    requires Own(freeMap, disk, live, leaked) && s in live
    ensures Placed(disk, s) && |disk| <= 0x8000_0000
  {
  }

  lemma ZeroContent(disk: seq<Block>, s: nat)
    requires Placed(disk, s) && |disk| <= 0x8000_0000
    requires forall x: nat | InData(disk, s, x) && x < |disk| :: disk[x] == Data(InodeIO.ZeroSector())
    ensures Content(disk, s) == Zeros(disk[s].inode.length)
  {
    hide BytesToSectors, Placed;
    OnDisk(disk, s);
    var d := disk[s].inode;
    var c := Content(disk, s);
    forall i | 0 <= i < d.length
      ensures c[i] == 0
    {
      FlatByte(Sectors(disk), 512 * d.start + i);
      SectorOfByte(d.start, d.length, 512 * d.start + i);
      InOwnData(disk, s, (512 * d.start + i) / 512);
    }
  }

  // ---------------------------------------------------------------
  // filesys_create undone by filesys_remove
  // ---------------------------------------------------------------

  /** Removing a file that has just been created succeeds and gives back every sector that it took;
      the directory has the names that it had. */
  lemma CreateThenRemove(fs: Fs, name: Name, size: nat, ok: Faults)
    requires Inv(fs) && Quiescent(fs) && size < 0x8000_0000
    ensures |fs.disk| == |fs.freeMap|
    ensures Create(fs, name, size, ok).1 ==>
              var (fs', r) := Remove(Create(fs, name, size, ok).0, name, NoFaults());
              && r && fs'.freeMap == fs.freeMap && fs'.files == fs.files && fs'.leaked == fs.leaked
              && |fs'.dir| == |fs.dir|
              && forall j | 0 <= j < |fs.dir| :: fs'.dir[j] == fs.dir[j] || (!fs'.dir[j].inUse && !fs.dir[j].inUse)
  {
    hide *;
    SizesAgree(fs);
    var fs1 := Create(fs, name, size, ok).0;
    if Create(fs, name, size, ok).1 {
      CreateMakesFile(fs, name, size, ok);
      CreateKeeps(fs, name, size, ok);
      var i := NewSlot(fs, fs1, name, size);
      NameFound(fs1, i);
      RemoveSucceeds(fs1, name, NoFaults());
      RemovedEntry(fs1, name, NoFaults());
      RemoveKeeps(fs1, name, NoFaults());
      UndoneLive(fs, fs1, Remove(fs1, name, NoFaults()).0, i);
      SameCover(fs, Remove(fs1, name, NoFaults()).0);
    }
  }

  lemma NewSlot(fs: Fs, fs1: Fs, name: Name, size: nat) returns (i: nat)
    requires NewFile(fs, fs1, name, size)
    ensures i < |fs.dir| && |fs1.dir| == |fs.dir| && !fs.dir[i].inUse
    ensures fs1.dir[i].inUse && fs1.dir[i].name == name && fs1.dir == fs.dir[i := fs1.dir[i]]
  {
    hide Live, Placed, Content;
    i := FreeSlot(fs.dir).value;
  }

  lemma NameFound(fs: Fs, i: nat)
    requires Inv(fs) && i < |fs.dir| && fs.dir[i].inUse
    ensures Lookup(fs.dir, fs.dir[i].name) == Some(i)
  {
    assert DirOk(fs.dir);
  }

  /** An entry added and erased again leaves the live inodes as they were. */
  lemma UndoneLive(fs: Fs, fs1: Fs, fs2: Fs, i: nat)
    requires Inv(fs) && Inv(fs1) && Inv(fs2) && i < |fs.dir| && |fs1.dir| == |fs.dir| && !fs.dir[i].inUse
    requires fs1.dir[i].inUse && fs1.dir == fs.dir[i := fs1.dir[i]]
    requires fs2.dir == fs1.dir[i := fs1.dir[i].(inUse := false)] && fs2.files == fs.files && fs2.held == fs.held
    ensures Live(fs2) == Live(fs)
  {
    hide Inv, OpenSectors;
    SameTable(fs, fs2);
    forall s
      ensures s in Named(fs2.dir) <==> s in Named(fs.dir)
    {
      if s in Named(fs.dir) {
        var j :| 0 <= j < |fs.dir| && fs.dir[j].inUse && fs.dir[j].sector == s;
        assert fs2.dir[j].inUse && fs2.dir[j].sector == s;
      }
      if s in Named(fs2.dir) {
        var j :| 0 <= j < |fs2.dir| && fs2.dir[j].inUse && fs2.dir[j].sector == s;
        assert fs.dir[j].inUse && fs.dir[j].sector == s;
      }
    }
  }

  lemma SameCover(fs: Fs, fs': Fs)
    requires Inv(fs) && Inv(fs') && Live(fs') == Live(fs) && fs'.leaked == fs.leaked
    requires KeepsCovered(fs.disk, fs'.disk, Live(fs))
    ensures fs'.freeMap == fs.freeMap
  {
    hide Live, TableOk, DirOk, Placed, BytesToSectors;
    forall t, x | t in Live(fs)
      ensures Covers(fs'.disk, t, x) <==> Covers(fs.disk, t, x)
    {
      LiveArePlaced(fs, t);
      assert Covers(fs.disk, t, t);
    }
    forall x | 0 <= x < |fs.freeMap|
      ensures fs'.freeMap[x] <==> fs.freeMap[x]
    {
    }
  }
}
