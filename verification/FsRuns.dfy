/** Every operation keeps the invariant, so every run does: no assertion of the file system
    ever fails, and the sectors in use are exactly the owned and the leaked ones. */
module FsRuns {
  import opened Lists
  import opened Options
  import opened Bitmap
  import opened Bytes
  import opened FsModel
  import opened FsOwnership
  import opened FsInvariant

  // ---------------------------------------------------------------
  // Removing
  // ---------------------------------------------------------------

  /** Erasing an entry whose inode is open, and marking that inode removed. */
  lemma EraseTable(opens: seq<InodeRec>, disk: seq<Block>, files: map<nat, File>, held: multiset<nat>, kept: set<nat>,
                   i: nat)
    requires TableOk(opens, disk, files, held, kept) && i < |opens|
    ensures TableOk(opens[i := opens[i].(removed := true)], disk, files, held, kept - {opens[i].sector})
  {
    var opens' := opens[i := opens[i].(removed := true)];
    UpdatedOpenSectors(opens, i, opens[i].(removed := true));
    forall j | 0 <= j < |opens'|
      ensures RecOk(opens'[j], disk, files, held, kept - {opens[i].sector})
    {
      assert RecOk(opens[j], disk, files, held, kept);
    }
  }

  lemma EraseKeeps(fs: Fs, i: nat)
    requires Inv(fs) && i < |fs.dir| && fs.dir[i].inUse
    requires fs.dir[i].sector in OpenSectors(fs.opens)
    ensures var fs' := MarkRemoved(fs.(dir := fs.dir[i := fs.dir[i].(inUse := false)]), fs.dir[i].sector);
            && Inv(fs') && Live(fs') == Live(fs) && fs'.held == fs.held && fs'.files == fs.files
            && fs' == fs.(opens := fs'.opens, dir := fs.dir[i := fs.dir[i].(inUse := false)])
            && fs.dir[i].sector !in Named(fs'.dir)
  {
    hide TableOk, Own, DirOk, FindOpen, OpenSectors, Named;
    var s := fs.dir[i].sector;
    FindOpenIsMembership(fs.opens, s);
    var k := FindOpen(fs.opens, s).value;
    NamedAreKept(fs, i);
    NamedErase(fs.dir, i);
    EraseTable(fs.opens, fs.disk, fs.files, fs.held, Kept(fs.dir), k);
    UpdatedOpenSectors(fs.opens, k, fs.opens[k].(removed := true));
    var dir' := fs.dir[i := fs.dir[i].(inUse := false)];
    assert Kept(fs.dir) - {s} == Kept(dir');
    assert Kept(dir') + OpenSectors(fs.opens) == Live(fs);
  }

  lemma DirRemoveKeeps(fs: Fs, name: Name, memOk: bool)
    requires Inv(fs)
    ensures var (fs', ok) := DirRemove(fs, name, memOk);
            && Inv(fs') && fs'.held == fs.held && fs'.files == fs.files && fs'.leaked == fs.leaked
               && fs'.disk == fs.disk
            && (ok ==> Lookup(fs'.dir, name).None?) && (!ok ==> fs' == fs)
  {
    hide *;
    match Lookup(fs.dir, name)
    case None =>
      DirRemoveCases(fs, name, memOk, 0);
    case Some(i) =>
      var s := fs.dir[i].sector;
      DirRemoveCases(fs, name, memOk, i);
      NamedAreKept(fs, i);
      InodeOpenKeeps(fs, s, memOk);
      var (fs1, isOpen) := InodeOpen(fs, s, memOk);
      if isOpen {
        EraseKeeps(fs1, i);
        var fs2 := fs1.(dir := fs1.dir[i := fs1.dir[i].(inUse := false)]);
        var fs3 := MarkRemoved(fs2, s);
        InodeCloseKeeps(fs3, s);
        ErasedName(fs, name, i);
        assert InodeClose(fs3, s).held == fs.held;
      }
  }

  lemma DirRemoveCases(fs: Fs, name: Name, memOk: bool, i: nat)
    requires Lookup(fs.dir, name) == None || (Lookup(fs.dir, name) == Some(i))
    ensures Lookup(fs.dir, name).None? ==> DirRemove(fs, name, memOk) == (fs, false)
    ensures Lookup(fs.dir, name) == Some(i) ==>
              var s := fs.dir[i].sector;
              var (fs1, isOpen) := InodeOpen(fs, s, memOk);
              DirRemove(fs, name, memOk) == if !isOpen then (fs1, false) else
                (InodeClose(MarkRemoved(fs1.(dir := fs.dir[i := fs.dir[i].(inUse := false)]), s), s), true)
  {
  }

  lemma NamedAreKept(fs: Fs, i: nat)
    requires Inv(fs) && i < |fs.dir| && fs.dir[i].inUse
    ensures fs.dir[i].sector in Kept(fs.dir) && fs.dir[i].sector > 1
  {
  }

  lemma ErasedName(fs: Fs, name: Name, i: nat)
    requires Inv(fs) && Lookup(fs.dir, name) == Some(i)
    ensures Lookup(fs.dir[i := fs.dir[i].(inUse := false)], name).None?
  {
    assert DirOk(fs.dir);
  }

  // ---------------------------------------------------------------
  // Opening and creating
  // ---------------------------------------------------------------

  lemma OpenRootKeeps(fs: Fs, ok: Faults)
    requires Inv(fs)
    ensures var (fs', isOpen) := OpenRoot(fs, ok);
            && Inv(fs') && Live(fs') == Live(fs)
            && fs' == fs.(opens := fs'.opens, held := fs'.held)
            && fs'.held == if isOpen then fs.held + multiset{1} else fs.held
  {
    hide TableOk, Own, DirOk, OpenSectors, Named, InodeOpen, InodeClose;
    InodeOpenKeeps(fs, 1, ok.rootInode);
    var (fs1, isOpen) := InodeOpen(fs, 1, ok.rootInode);
    if isOpen && !ok.rootDir {
      InodeCloseKeeps(fs1, 1);
      assert 1 in Kept(fs.dir);
      assert fs1.held - multiset{1} == fs.held;
    }
  }

  /** Closing the root directory again, which is never removed. */
  lemma CloseRootKeeps(fs: Fs)
    requires Inv(fs) && fs.held[1] > 0
    ensures var fs' := InodeClose(fs, 1);
            && Inv(fs') && Live(fs') == Live(fs)
            && fs' == fs.(opens := fs'.opens, held := fs.held - multiset{1})
  {
    hide TableOk, Own, DirOk, OpenSectors, Named, InodeClose;
    InodeCloseKeeps(fs, 1);
    assert 1 in Kept(fs.dir);
  }

  lemma FileAdded(files: map<nat, File>, s: nat, id: nat, t: nat)
    requires id !in files
    ensures |OnFile(files[id := File(s, false, 0)], t)| == |OnFile(files, t)| + if t == s then 1 else 0
    ensures Denying(files[id := File(s, false, 0)], t) == Denying(files, t)
  {
    var files' := files[id := File(s, false, 0)];
    if t == s {
      assert OnFile(files', t) == OnFile(files, t) + {id};
    } else {
      assert OnFile(files', t) == OnFile(files, t);
    }
  }

  lemma FileOpenTable(opens: seq<InodeRec>, disk: seq<Block>, files: map<nat, File>, held: multiset<nat>,
                      kept: set<nat>, s: nat, id: nat)
    requires TableOk(opens, disk, files, held, kept) && held[s] > 0 && id !in files
    ensures TableOk(opens, disk, files[id := File(s, false, 0)], held - multiset{s}, kept)
  {
    hide OpenSectors, OnFile, Denying;
    forall j | 0 <= j < |opens|
      ensures RecOk(opens[j], disk, files[id := File(s, false, 0)], held - multiset{s}, kept)
    {
      assert RecOk(opens[j], disk, files, held, kept);
      FileAdded(files, s, id, opens[j].sector);
    }
  }

  lemma FileOpenKeeps(fs: Fs, s: nat, id: nat, memOk: bool)
    requires Inv(fs) && fs.held[s] > 0 && id !in fs.files && (s == 0 ==> fs.held[0] > 1)
    ensures var (fs', ok) := FileOpen(fs, s, id, memOk);
            && Inv(fs') && fs'.held == fs.held - multiset{s}
            && fs'.files == (if ok then fs.files[id := File(s, false, 0)] else fs.files)
            && fs'.dir == fs.dir && fs'.leaked == fs.leaked && fs'.disk == fs.disk
  {
    hide TableOk, Own, DirOk, OpenSectors, Named, InodeClose;
    if memOk {
      FileOpenTable(fs.opens, fs.disk, fs.files, fs.held, Kept(fs.dir), s, id);
    } else {
      InodeCloseKeeps(fs, s);
    }
  }

  /** filesys_open from the entry found on. */
  ghost function OpenEntry(fs: Fs, s: nat, id: nat, ok: Faults): (Fs, bool) {
    var (fs2, found) := InodeOpen(fs, s, ok.inode);
    var fs3 := InodeClose(fs2, 1);
    if found then FileOpen(fs3, s, id, ok.file) else (fs3, false)
  }

  lemma OpenEntryKeeps(fs: Fs, i: nat, id: nat, ok: Faults)
    requires Inv(fs) && fs.held[1] > 0 && id !in fs.files && i < |fs.dir| && fs.dir[i].inUse
    ensures var (fs', r) := OpenEntry(fs, fs.dir[i].sector, id, ok);
            && Inv(fs') && fs'.held == fs.held - multiset{1} && fs'.dir == fs.dir && fs'.leaked == fs.leaked
               && fs'.disk == fs.disk
            && fs'.files == if r then fs.files[id := File(fs.dir[i].sector, false, 0)] else fs.files
  {
    hide TableOk, Own, DirOk, OpenSectors, Named, InodeClose, InodeOpen, Kept, Live, Inv, FileOpen;
    var s := fs.dir[i].sector;
    NamedAreKept(fs, i);
    InodeOpenKeeps(fs, s, ok.inode);
    var (fs2, found) := InodeOpen(fs, s, ok.inode);
    CloseRootKeeps(fs2);
    if found {
      FileOpenKeeps(InodeClose(fs2, 1), s, id, ok.file);
      assert fs.held + multiset{s} - multiset{1} - multiset{s} == fs.held - multiset{1};
    }
  }

  lemma OpenKeeps(fs: Fs, name: Name, id: nat, ok: Faults)
    requires Inv(fs) && id !in fs.files
    ensures var (fs', r) := Open(fs, name, id, ok);
            && Inv(fs') && fs'.held == fs.held && fs'.dir == fs.dir && fs'.leaked == fs.leaked && fs'.disk == fs.disk
            && (r ==> Lookup(fs.dir, name).Some?
                      && fs'.files == fs.files[id := File(fs.dir[Lookup(fs.dir, name).value].sector, false, 0)])
            && (!r ==> fs'.files == fs.files)
  {
    hide TableOk, Own, DirOk, OpenSectors, Named, InodeClose, InodeOpen, Kept, Live, Inv, OpenRoot, FileOpen, Lookup;
    OpenRootKeeps(fs, ok);
    var (fs1, isOpen) := OpenRoot(fs, ok);
    if isOpen {
      assert fs1.held - multiset{1} == fs.held;
      match Lookup(fs.dir, name)
      case None => CloseRootKeeps(fs1);
      case Some(i) => OpenEntryKeeps(fs1, i, id, ok);
    }
  }

  // ---------------------------------------------------------------
  // filesys_create
  // ---------------------------------------------------------------

  /** What the first allocation of filesys_create finds. */
  lemma HeaderAllocated(fs: Fs, writeOk: bool)
    requires Inv(fs)
    ensures var (fs1, header) := Allocate(fs, 1, writeOk);
            if header.None? then fs1 == fs
            else header.value > 1 && header.value !in Live(fs)
                 && RunOf(fs.freeMap, header.value, 1, false)
                 && fs1 == fs.(freeMap := SetRun(fs.freeMap, header.value, 1, true))
  {
    var r := FirstRun(fs.freeMap, 0, 1, false);
    if r.Some? {
      SetRunTwice(fs.freeMap, r.value, 1, false);
      forall s | s in Live(fs)
        ensures s != r.value
      {
        assert Covers(fs.disk, s, s);
        CoveredUsed(fs.freeMap, fs.disk, Live(fs), fs.leaked, s, s);
      }
    }
  }

  /** inode_create fails without a trace or adds a live inode on free sectors. */
  lemma InodeCreateKeeps(fs: Fs, sector: nat, size: nat, memOk: bool, writeOk: bool)
    requires Inv(fs) && size < 0x8000_0000
    requires sector < |fs.freeMap| && RunOf(fs.freeMap, sector, 1, false)
    ensures |fs.disk| == |fs.freeMap|
    ensures var fs1 := fs.(freeMap := SetRun(fs.freeMap, sector, 1, true));
            var (fs2, created) := InodeCreate(fs1, sector, size, memOk, writeOk);
            if !created then fs2 == fs1
            else fs2 == fs.(freeMap := fs2.freeMap, disk := fs2.disk) && |fs2.disk| == |fs.disk|
                 && Own(fs2.freeMap, fs2.disk, Live(fs) + {sector}, fs.leaked)
                 && IsHeader(fs2.disk, sector) && fs2.disk[sector].inode.length == size
                 && (forall t | t in Live(fs) :: IsHeader(fs.disk, t) && fs2.disk[t] == fs.disk[t])
                 && KeepsCovered(fs.disk, fs2.disk, Live(fs))
  {
    hide TableOk, DirOk, OpenSectors, Named, AllPlaced, Disjoint, LeakedApart, UsedExactly, BytesToSectors, ZeroRun;
    hide KeepsCovered;
    var marked := SetRun(fs.freeMap, sector, 1, true);
    var n := BytesToSectors(size);
    var r := FirstRun(marked, 0, n, false);
    if r.Some? {
      if memOk && writeOk {
        OwnAdd(fs.freeMap, fs.disk, Live(fs), fs.leaked, sector, DiskInode(r.value, size));
      } else {
        SetRunTwice(marked, r.value, n, false);
      }
    }
  }

  /** The table does not see sectors that no open inode owns. */
  lemma TableFrame(opens: seq<InodeRec>, disk: seq<Block>, disk': seq<Block>, files: map<nat, File>,
                   held: multiset<nat>, kept: set<nat>, kept': set<nat>)
    requires TableOk(opens, disk, files, held, kept)
    requires forall s | s in OpenSectors(opens) :: IsHeader(disk, s) && s < |disk'| && disk'[s] == disk[s]
    requires forall s | s in OpenSectors(opens) :: s in kept <==> s in kept'
    ensures TableOk(opens, disk', files, held, kept')
  {
    forall i | 0 <= i < |opens|
      ensures RecOk(opens[i], disk', files, held, kept')
    {
      assert RecOk(opens[i], disk, files, held, kept);
      assert opens[i].sector in OpenSectors(opens);
    }
  }

  /** A creation that reaches the directory: entered under its name, or undone at the price
      of its data sectors. */
  lemma CreatedKeeps(fs: Fs, fs2: Fs, name: Name, sector: nat)
    requires Inv(fs) && sector > 1 && sector !in Live(fs)
    requires fs2 == fs.(freeMap := fs2.freeMap, disk := fs2.disk) && |fs2.disk| == |fs.disk|
    requires Own(fs2.freeMap, fs2.disk, Live(fs) + {sector}, fs.leaked)
    requires forall t | t in Live(fs) :: IsHeader(fs.disk, t) && fs2.disk[t] == fs.disk[t]
    ensures var (fs3, added) := DirAdd(fs2, name, sector);
            && (added ==> Inv(fs3) && Lookup(fs.dir, name).None? && sector in Named(fs3.dir))
            && (!added ==> fs3 == fs2
                           && Inv(Release(fs2.(leaked := fs2.leaked + DataOf(fs2.disk, sector)), sector, 1)))
  {
    hide TableOk, OpenSectors, AllPlaced, Disjoint, LeakedApart, UsedExactly, Placed, DirOk, Named;
    var kept := Kept(fs.dir);
    assert sector !in kept && sector !in OpenSectors(fs.opens);
    var (fs3, added) := DirAdd(fs2, name, sector);
    if added {
      var i := FreeSlot(fs.dir).value;
      NamedAdd(fs.dir, i, name, sector);
      assert Kept(fs3.dir) == kept + {sector};
      TableFrame(fs.opens, fs.disk, fs2.disk, fs.files, fs.held, kept, Kept(fs3.dir));
      assert Live(fs3) == Live(fs) + {sector};
    } else {
      TableFrame(fs.opens, fs.disk, fs2.disk, fs.files, fs.held, kept, kept);
      LiveSectorsUsed(fs2.freeMap, fs2.disk, Live(fs) + {sector}, fs.leaked, sector);
      OwnLeak(fs2.freeMap, fs2.disk, Live(fs) + {sector}, fs.leaked, sector);
      assert Live(fs) + {sector} - {sector} == Live(fs);
    }
  }

  lemma CreateInKeeps(fs: Fs, name: Name, size: nat, ok: Faults)
    requires Inv(fs) && size < 0x8000_0000
    ensures |fs.disk| == |fs.freeMap|
    ensures var (fs', r) := CreateIn(fs, name, size, ok);
            && Inv(fs') && fs'.held == fs.held && fs'.files == fs.files && fs'.opens == fs.opens
            && (r ==> fs'.leaked == fs.leaked && Lookup(fs.dir, name).None?)
            && (!r ==> fs'.dir == fs.dir)
            && KeepsCovered(fs.disk, fs'.disk, Live(fs))
  {
    hide TableOk, OpenSectors, Own, Placed, DirOk, Named, Allocate, InodeCreate, DirAdd, DataOf, Live, Kept;
    hide KeepsCovered;
    SizesAgree(fs);
    NothingWritten(fs);
    HeaderAllocated(fs, ok.headerWrite);
    var (fs1, header) := Allocate(fs, 1, ok.headerWrite);
    if header.Some? {
      var sector := header.value;
      InodeCreateKeeps(fs, sector, size, ok.diskInode, ok.dataWrite);
      var (fs2, created) := InodeCreate(fs1, sector, size, ok.diskInode, ok.dataWrite);
      if created {
        CreatedKeeps(fs, fs2, name, sector);
        DirAddCases(fs2, name, sector);
      } else {
        SetRunTwice(fs.freeMap, sector, 1, false);
        assert Release(fs1.(leaked := fs1.leaked + {}), sector, 1) == fs;
      }
    }
  }

  lemma NothingWritten(fs: Fs)
    requires Inv(fs)
    ensures KeepsCovered(fs.disk, fs.disk, Live(fs))
  {
    LiveOnDevice(fs);
  }

  lemma SizesAgree(fs: Fs)
    requires Inv(fs)
    ensures |fs.disk| == |fs.freeMap|
  {
  }

  lemma DirAddCases(fs: Fs, name: Name, sector: nat)
    ensures var (fs', added) := DirAdd(fs, name, sector);
            fs' == fs.(dir := fs'.dir) && (!added ==> fs' == fs)
  {
  }

  lemma CreateKeeps(fs: Fs, name: Name, size: nat, ok: Faults)
    requires Inv(fs) && size < 0x8000_0000
    ensures |fs.disk| == |fs.freeMap|
    ensures var (fs', r) := Create(fs, name, size, ok);
            && Inv(fs') && fs'.held == fs.held && fs'.files == fs.files
            && (r ==> fs'.leaked == fs.leaked && Lookup(fs.dir, name).None?)
            && (!r ==> fs'.dir == fs.dir)
            && KeepsCovered(fs.disk, fs'.disk, Live(fs))
  {
    hide TableOk, OpenSectors, Own, Placed, DirOk, Named, OpenRoot, CreateIn, InodeClose, Live, Kept, Inv, KeepsCovered;
    SizesAgree(fs);
    NothingWritten(fs);
    OpenRootKeeps(fs, ok);
    var (fs1, isOpen) := OpenRoot(fs, ok);
    if isOpen {
      CreateInKeeps(fs1, name, size, ok);
      var (fs2, r) := CreateIn(fs1, name, size, ok);
      CloseRootKeeps(fs2);
      assert fs2.held - multiset{1} == fs.held;
    }
  }

  lemma RemoveKeeps(fs: Fs, name: Name, ok: Faults)
    requires Inv(fs)
    ensures var (fs', r) := Remove(fs, name, ok);
            && Inv(fs') && fs'.held == fs.held && fs'.files == fs.files && fs'.leaked == fs.leaked
               && fs'.disk == fs.disk
            && (r ==> Lookup(fs'.dir, name).None?) && (!r ==> fs'.dir == fs.dir)
  {
    hide TableOk, OpenSectors, Own, Placed, DirOk, Named, OpenRoot, DirRemove, InodeClose, Live, Kept, Inv, Lookup;
    OpenRootKeeps(fs, ok);
    var (fs1, isOpen) := OpenRoot(fs, ok);
    if isOpen {
      DirRemoveKeeps(fs1, name, ok.inode);
      var (fs2, r) := DirRemove(fs1, name, ok.inode);
      CloseRootKeeps(fs2);
      assert fs2.held - multiset{1} == fs.held;
    }
  }

  // ---------------------------------------------------------------
  // Operations on open files
  // ---------------------------------------------------------------

  lemma FileIsOpen(fs: Fs, id: nat)
    requires Inv(fs) && id in fs.files
    ensures fs.files[id].sector in OpenSectors(fs.opens) && FindOpen(fs.opens, fs.files[id].sector).Some?
  {
    FindOpenIsMembership(fs.opens, fs.files[id].sector);
  }

  lemma ReopenKeeps(fs: Fs, id: nat, id2: nat, ok: Faults)
    requires Inv(fs) && id in fs.files && id2 !in fs.files
    ensures var (fs', r) := Reopen(fs, id, id2, ok);
            && Inv(fs') && fs'.held == fs.held && fs'.dir == fs.dir && fs'.leaked == fs.leaked && fs'.disk == fs.disk
            && fs'.files == if r then fs.files[id2 := File(fs.files[id].sector, false, 0)] else fs.files
  {
    hide TableOk, Own, DirOk, OpenSectors, Named, InodeClose, Kept, Live, Inv, FileOpen;
    var s := fs.files[id].sector;
    FileIsOpen(fs, id);
    var i := FindOpen(fs.opens, s).value;
    InodeReopenKeeps(fs, i);
    HeldZero(fs);
    FileOpenKeeps(InodeReopen(fs, i), s, id2, ok.file);
    assert fs.held + multiset{s} - multiset{s} == fs.held;
  }

  lemma HeldZero(fs: Fs)
    requires Inv(fs)
    ensures fs.held[0] > 0
  {
  }

  lemma DenyToggled(files: map<nat, File>, id: nat, t: nat)
    requires id in files
    ensures var f := files[id];
            && OnFile(files[id := f.(denyWrite := !f.denyWrite)], t) == OnFile(files, t)
            && |Denying(files[id := f.(denyWrite := !f.denyWrite)], t)|
               == |Denying(files, t)| + (if t != f.sector then 0 else if f.denyWrite then -1 else 1)
    ensures |Denying(files, t)| <= |OnFile(files, t)|
  {
    var f := files[id];
    var files' := files[id := f.(denyWrite := !f.denyWrite)];
    if t != f.sector {
      assert Denying(files', t) == Denying(files, t);
    } else if f.denyWrite {
      assert Denying(files, t) == Denying(files', t) + {id};
    } else {
      assert Denying(files', t) == Denying(files, t) + {id};
    }
    SubsetSize(Denying(files, t), OnFile(files, t));
  }

  /** A file turns its denial on or off: the inode's count follows, and stays between 0 and
      the number of openers. */
  lemma ToggleTable(opens: seq<InodeRec>, disk: seq<Block>, files: map<nat, File>, held: multiset<nat>,
                    kept: set<nat>, i: nat, id: nat)
    requires TableOk(opens, disk, files, held, kept) && i < |opens|
    requires id in files && opens[i].sector == files[id].sector
    ensures var f, r := files[id], opens[i];
            var r' := r.(denyWriteCnt := r.denyWriteCnt + if f.denyWrite then -1 else 1);
            && TableOk(opens[i := r'], disk, files[id := f.(denyWrite := !f.denyWrite)], held, kept)
            && 0 <= r.denyWriteCnt <= r.openCnt && 0 <= r'.denyWriteCnt <= r.openCnt
  {
    hide OpenSectors, OnFile, Denying;
    var f, r := files[id], opens[i];
    var r' := r.(denyWriteCnt := r.denyWriteCnt + if f.denyWrite then -1 else 1);
    var files' := files[id := f.(denyWrite := !f.denyWrite)];
    var opens' := opens[i := r'];
    UpdatedOpenSectors(opens, i, r');
    forall j | 0 <= j < |opens'|
      ensures RecOk(opens'[j], disk, files', held, kept)
    {
      assert RecOk(opens[j], disk, files, held, kept);
      DenyToggled(files, id, opens[j].sector);
    }
    DenyToggled(files, id, f.sector);
    DenyToggled(files', id, f.sector);
  }

  lemma DenyWriteKeeps(fs: Fs, id: nat)
    requires Inv(fs) && id in fs.files
    ensures var fs' := DenyWrite(fs, id);
            && Inv(fs') && Live(fs') == Live(fs)
            && fs' == fs.(opens := fs'.opens, files := fs.files[id := fs.files[id].(denyWrite := true)])
  {
    hide TableOk, Own, DirOk, OpenSectors, Named, Kept, FindOpen;
    FileIsOpen(fs, id);
    if !fs.files[id].denyWrite {
      var i := FindOpen(fs.opens, fs.files[id].sector).value;
      var r := fs.opens[i];
      ToggleTable(fs.opens, fs.disk, fs.files, fs.held, Kept(fs.dir), i, id);
      UpdatedOpenSectors(fs.opens, i, r.(denyWriteCnt := r.denyWriteCnt + 1));
    }
  }

  lemma AllowWriteKeeps(fs: Fs, id: nat)
    requires Inv(fs) && id in fs.files
    ensures var fs' := AllowWrite(fs, id);
            && Inv(fs') && Live(fs') == Live(fs)
            && fs' == fs.(opens := fs'.opens, files := fs.files[id := fs.files[id].(denyWrite := false)])
  {
    hide TableOk, Own, DirOk, OpenSectors, Named, Kept, FindOpen;
    FileIsOpen(fs, id);
    if fs.files[id].denyWrite {
      var i := FindOpen(fs.opens, fs.files[id].sector).value;
      var r := fs.opens[i];
      ToggleTable(fs.opens, fs.disk, fs.files, fs.held, Kept(fs.dir), i, id);
      UpdatedOpenSectors(fs.opens, i, r.(denyWriteCnt := r.denyWriteCnt - 1));
    }
  }

  lemma FileDropped(files: map<nat, File>, id: nat, t: nat)
    requires id in files && !files[id].denyWrite
    ensures |OnFile(files, t)| == |OnFile(files - {id}, t)| + if t == files[id].sector then 1 else 0
    ensures Denying(files - {id}, t) == Denying(files, t)
  {
    if t == files[id].sector {
      assert OnFile(files, t) == OnFile(files - {id}, t) + {id};
    } else {
      assert OnFile(files, t) == OnFile(files - {id}, t);
    }
  }

  lemma FileDropTable(opens: seq<InodeRec>, disk: seq<Block>, files: map<nat, File>, held: multiset<nat>,
                      kept: set<nat>, id: nat)
    requires TableOk(opens, disk, files, held, kept) && id in files && !files[id].denyWrite
    ensures TableOk(opens, disk, files - {id}, held + multiset{files[id].sector}, kept)
  {
    hide OpenSectors, OnFile, Denying;
    forall j | 0 <= j < |opens|
      ensures RecOk(opens[j], disk, files - {id}, held + multiset{files[id].sector}, kept)
    {
      assert RecOk(opens[j], disk, files, held, kept);
      FileDropped(files, id, opens[j].sector);
    }
  }

  lemma CloseKeeps(fs: Fs, id: nat)
    requires Inv(fs) && id in fs.files
    ensures var fs' := Close(fs, id);
            && Inv(fs') && fs'.held == fs.held && fs'.files == fs.files - {id}
            && fs'.dir == fs.dir && fs'.leaked == fs.leaked && fs'.disk == fs.disk
            && (forall s | s in Live(fs') :: s in Live(fs))
            && (forall s | s in Live(fs) && s != fs.files[id].sector :: s in Live(fs'))
            && (fs.files[id].sector in Kept(fs.dir) ==> fs'.freeMap == fs.freeMap)
  {
    hide TableOk, Own, DirOk, OpenSectors, Named, Kept, FindOpen, InodeClose, AllowWrite;
    AllowWriteKeeps(fs, id);
    var fs1 := AllowWrite(fs, id);
    var s := fs1.files[id].sector;
    FileDropTable(fs1.opens, fs1.disk, fs1.files, fs1.held, Kept(fs1.dir), id);
    var fs2 := fs1.(files := fs1.files - {id}, held := fs1.held + multiset{s});
    InodeCloseKeeps(fs2, s);
    assert fs1.held + multiset{s} - multiset{s} == fs1.held;
    assert fs.files[id := fs.files[id].(denyWrite := false)] - {id} == fs.files - {id};
  }

  lemma DataWriteKeeps(fs: Fs, s: nat, disk': seq<Block>)
    requires Inv(fs) && s in Live(fs) && DataChange(fs.disk, disk', s)
    ensures Inv(fs.(disk := disk'))
    ensures KeepsCovered(fs.disk, disk', Live(fs) - {s})
    ensures forall t | t in Live(fs) :: t < |fs.disk| && disk'[t] == fs.disk[t]
  {
    hide DirOk, AllPlaced, LeakedApart, UsedExactly, TableOk, OpenSectors, Kept, DataChange;
    OwnData(fs.freeMap, fs.disk, Live(fs), fs.leaked, s, disk');
    LiveOnDevice(fs);
    TableFrame(fs.opens, fs.disk, disk', fs.files, fs.held, Kept(fs.dir), Kept(fs.dir));
    SameLength(fs.disk, disk', s);
  }

  lemma SameLength(disk: seq<Block>, disk': seq<Block>, s: nat)
    requires DataChange(disk, disk', s)
    ensures |disk'| == |disk|
  {
  }

  /** A file's position is its own affair. */
  lemma SeekTable(opens: seq<InodeRec>, disk: seq<Block>, files: map<nat, File>, held: multiset<nat>, kept: set<nat>,
                  id: nat, pos: nat)
    requires TableOk(opens, disk, files, held, kept) && id in files
    ensures TableOk(opens, disk, files[id := files[id].(pos := pos)], held, kept)
  {
    hide OpenSectors;
    var files' := files[id := files[id].(pos := pos)];
    forall t
      ensures OnFile(files', t) == OnFile(files, t) && Denying(files', t) == Denying(files, t)
    {
    }
    forall i | 0 <= i < |opens|
      ensures RecOk(opens[i], disk, files', held, kept)
    {
      assert RecOk(opens[i], disk, files, held, kept);
    }
  }

  lemma SeekKeeps(fs: Fs, id: nat, pos: nat)
    requires Inv(fs) && id in fs.files
    ensures Inv(Seek(fs, id, pos)) && Live(Seek(fs, id, pos)) == Live(fs)
  {
    hide TableOk, Own, DirOk, OpenSectors, Named;
    SeekTable(fs.opens, fs.disk, fs.files, fs.held, Kept(fs.dir), id, pos);
  }

  /** The table entry of an open file. */
  lemma FileEntry(fs: Fs, id: nat)
    requires Inv(fs) && id in fs.files
    ensures var s := fs.files[id].sector;
            && FindOpen(fs.opens, s).Some? && s in Live(fs) && IsHeader(fs.disk, s)
            && fs.disk[s].inode == fs.opens[FindOpen(fs.opens, s).value].data
            && fs.opens[FindOpen(fs.opens, s).value].denyWriteCnt == |Denying(fs.files, s)|
  {
    FileIsOpen(fs, id);
    var i := FindOpen(fs.opens, fs.files[id].sector).value;
    assert RecOk(fs.opens[i], fs.disk, fs.files, fs.held, Kept(fs.dir));
  }

  /** The bytes that a write moves lie in its file's data sectors. */
  lemma WriteInData(disk: seq<Block>, s: nat, pos: nat, w: seq<byte>)
    requires Placed(disk, s) && |disk| <= 0x8000_0000 && pos + |w| <= disk[s].inode.length
    ensures var d := disk[s].inode;
            && 512 * d.start + d.length <= 512 * |disk|
            && DataChange(disk, Overwritten(disk, 512 * d.start + pos, w), s)
  {
    var d := disk[s].inode;
    SectorsOfAllocated(d.length);
    hide BytesToSectors;
    var disk' := Overwritten(disk, 512 * d.start + pos, w);
    forall x | 0 <= x < |disk| && disk'[x] != disk[x]
      ensures InData(disk, s, x) && disk'[x].Data?
    {
    }
  }

  /** A write changes nothing but data of its own file and its position, and that only if no opener
      denies writes. */
  lemma WriteKeeps(fs: Fs, id: nat, w: seq<byte>, most: nat)
    requires Inv(fs) && id in fs.files
    ensures var fs', n := Write(fs, id, w, most), WriteCount(fs, id, w, most);
            && Inv(fs') && Live(fs') == Live(fs)
            && fs' == Seek(fs.(disk := fs'.disk), id, fs.files[id].pos + n)
            && KeepsCovered(fs.disk, fs'.disk, Live(fs) - {fs.files[id].sector})
            && (forall t | t in Live(fs) :: t < |fs.disk| && fs'.disk[t] == fs.disk[t])
            && (Denying(fs.files, fs.files[id].sector) != {} ==> n == 0)
            && (n == 0 ==> fs' == fs)
  {
    hide Inv, Kept, OpenSectors, FindOpen, Denying, BytesToSectors, Overwritten, Placed, DataChange;
    FileEntry(fs, id);
    LiveOnDevice(fs);
    var s := fs.files[id].sector;
    var r := fs.opens[FindOpen(fs.opens, s).value];
    var n := WriteCount(fs, id, w, most);
    LiveArePlaced(fs, s);
    HeadersStay(fs);
    if n > 0 {
      WriteInData(fs.disk, s, fs.files[id].pos, w[..n]);
      var disk' := Overwritten(fs.disk, 512 * r.data.start + fs.files[id].pos, w[..n]);
      DataWriteKeeps(fs, s, disk');
      SeekKeeps(fs.(disk := disk'), id, fs.files[id].pos + n);
    } else {
      NothingWritten(fs);
      assert fs.files[id := fs.files[id].(pos := fs.files[id].pos + 0)] == fs.files;
    }
  }

  lemma HeadersStay(fs: Fs)
    requires Inv(fs)
    ensures |fs.disk| <= 0x8000_0000 && forall t | t in Live(fs) :: t < |fs.disk|
  {
    forall t | t in Live(fs)
      ensures t < |fs.disk|
    {
      LiveArePlaced(fs, t);
    }
  }

  lemma LiveOnDevice(fs: Fs)
    requires Inv(fs)
    ensures forall s, x: nat | s in Live(fs) && Covers(fs.disk, s, x) :: x < |fs.disk|
    ensures forall s | s in OpenSectors(fs.opens) :: IsHeader(fs.disk, s)
  {
    forall s, x: nat | s in Live(fs) && Covers(fs.disk, s, x)
      ensures x < |fs.disk|
    {
      CoveredUsed(fs.freeMap, fs.disk, Live(fs), fs.leaked, s, x);
    }
    forall s | s in OpenSectors(fs.opens)
      ensures IsHeader(fs.disk, s)
    {
      LiveArePlaced(fs, s);
    }
  }
}
