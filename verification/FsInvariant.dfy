/** The invariant of the file system machine: sector ownership, the table of open inodes as a
    faithful cache, and unique directory entries. */
module FsInvariant {
  import opened Options
  import opened Bitmap
  import opened FsModel
  import opened FsOwnership

  // ---------------------------------------------------------------
  // The directory
  // ---------------------------------------------------------------

  ghost function Named(dir: seq<Entry>): (r: set<nat>)
    ensures forall s :: s in r <==> exists i :: 0 <= i < |dir| && dir[i].inUse && dir[i].sector == s
  {
    set i | 0 <= i < |dir| && dir[i].inUse :: dir[i].sector
  }

  /** Entries in use have distinct names and distinct inodes, none of them a system file's. */
  ghost predicate DirOk(dir: seq<Entry>) {
    && (forall i | 0 <= i < |dir| && dir[i].inUse :: dir[i].sector > 1)
    && (forall i, j | 0 <= i < j < |dir| && dir[i].inUse && dir[j].inUse ::
         dir[i].name != dir[j].name && dir[i].sector != dir[j].sector)
  }

  /** The inodes that outlive their openers. */
  ghost function Kept(dir: seq<Entry>): set<nat> { {0, 1} + Named(dir) }

  lemma NamedAdd(dir: seq<Entry>, i: nat, name: Name, sector: nat)
    requires DirOk(dir) && i < |dir| && !dir[i].inUse
    requires sector > 1 && sector !in Named(dir) && Lookup(dir, name).None?
    ensures DirOk(dir[i := Entry(true, name, sector)])
    ensures Named(dir[i := Entry(true, name, sector)]) == Named(dir) + {sector}
  {
    var dir' := dir[i := Entry(true, name, sector)];
    forall s
      ensures s in Named(dir') <==> s in Named(dir) + {sector}
    {
      if s in Named(dir) {
        var j :| 0 <= j < |dir| && dir[j].inUse && dir[j].sector == s;
        assert dir'[j].inUse && dir'[j].sector == s;
      }
      if s in Named(dir') {
        var j :| 0 <= j < |dir'| && dir'[j].inUse && dir'[j].sector == s;
        if j != i { assert dir[j].inUse && dir[j].sector == s; }
      }
      assert dir'[i].inUse;
    }
  }

  lemma NamedErase(dir: seq<Entry>, i: nat)
    requires DirOk(dir) && i < |dir| && dir[i].inUse
    ensures DirOk(dir[i := dir[i].(inUse := false)])
    ensures Named(dir[i := dir[i].(inUse := false)]) == Named(dir) - {dir[i].sector}
  {
    var dir' := dir[i := dir[i].(inUse := false)];
    forall s
      ensures s in Named(dir') <==> s in Named(dir) && s != dir[i].sector
    {
      if s in Named(dir) && s != dir[i].sector {
        var j :| 0 <= j < |dir| && dir[j].inUse && dir[j].sector == s;
        assert dir'[j].inUse && dir'[j].sector == s;
      }
      if s in Named(dir') {
        var j :| 0 <= j < |dir'| && dir'[j].inUse && dir'[j].sector == s;
        assert dir[j].inUse && dir[j].sector == s && j != i;
      }
    }
  }

  // ---------------------------------------------------------------
  // The table of open inodes
  // ---------------------------------------------------------------

  ghost function OnFile(files: map<nat, File>, s: nat): set<nat> {
    set id | id in files && files[id].sector == s
  }

  ghost function Denying(files: map<nat, File>, s: nat): set<nat> {
    set id | id in files && files[id].sector == s && files[id].denyWrite
  }

  /** References to the inode in sector s. */
  ghost function Refs(files: map<nat, File>, held: multiset<nat>, s: nat): nat {
    |OnFile(files, s)| + held[s]
  }

  ghost function OpenSectors(opens: seq<InodeRec>): (r: set<nat>)
    ensures forall s :: s in r <==> exists i :: 0 <= i < |opens| && opens[i].sector == s
  {
    set i | 0 <= i < |opens| :: opens[i].sector
  }

  /** An entry of the table agrees with the device, with the references to it, with the
      files denying writes to it, and with the directory. */
  ghost predicate RecOk(r: InodeRec, disk: seq<Block>, files: map<nat, File>, held: multiset<nat>, kept: set<nat>) {
    && IsHeader(disk, r.sector) && disk[r.sector].inode == r.data
    && r.openCnt == Refs(files, held, r.sector) > 0
    && r.denyWriteCnt == |Denying(files, r.sector)|
    && (r.removed <==> r.sector !in kept)
  }

  ghost predicate AllRecsOk(opens: seq<InodeRec>, disk: seq<Block>, files: map<nat, File>, held: multiset<nat>,
                            kept: set<nat>) {
    forall i | 0 <= i < |opens| :: RecOk(opens[i], disk, files, held, kept)
  }

  ghost predicate DistinctSectors(opens: seq<InodeRec>) {
    forall i, j | 0 <= i < j < |opens| :: opens[i].sector != opens[j].sector
  }

  ghost predicate RefsAreOpen(opens: seq<InodeRec>, files: map<nat, File>, held: multiset<nat>) {
    && (forall id | id in files :: files[id].sector in OpenSectors(opens))
    && (forall s | s in held :: s in OpenSectors(opens))
  }

  ghost predicate TableOk(opens: seq<InodeRec>, disk: seq<Block>, files: map<nat, File>, held: multiset<nat>,
                          kept: set<nat>) {
    && DistinctSectors(opens)
    && AllRecsOk(opens, disk, files, held, kept)
    && RefsAreOpen(opens, files, held)
  }

  lemma FindOpenIsMembership(opens: seq<InodeRec>, s: nat)
    ensures FindOpen(opens, s).Some? <==> s in OpenSectors(opens)
  {
  }

  // ---------------------------------------------------------------
  // The whole state
  // ---------------------------------------------------------------

  ghost function Live(fs: Fs): set<nat> { Kept(fs.dir) + OpenSectors(fs.opens) }

  ghost predicate Inv(fs: Fs) {
    && !fs.panicked
    && DirOk(fs.dir)
    && Own(fs.freeMap, fs.disk, Live(fs), fs.leaked)
    && TableOk(fs.opens, fs.disk, fs.files, fs.held, Kept(fs.dir))
    && fs.held[0] > 0
  }

  /** Between operations only the free map file is held. */
  ghost predicate Quiescent(fs: Fs) { fs.held == multiset{0} }

  // ---------------------------------------------------------------
  // inode_open, inode_reopen
  // ---------------------------------------------------------------

  lemma UpdatedOpenSectors(opens: seq<InodeRec>, i: nat, r: InodeRec)
    requires i < |opens| && r.sector == opens[i].sector
    ensures OpenSectors(opens[i := r]) == OpenSectors(opens)
    ensures DistinctSectors(opens) ==> DistinctSectors(opens[i := r])
  {
    var opens' := opens[i := r];
    assert forall j | 0 <= j < |opens| :: opens'[j].sector == opens[j].sector;
  }

  lemma ReopenTable(opens: seq<InodeRec>, disk: seq<Block>, files: map<nat, File>, held: multiset<nat>,
                    kept: set<nat>, i: nat)
    requires TableOk(opens, disk, files, held, kept) && i < |opens|
    ensures var r := opens[i];
            TableOk(opens[i := r.(openCnt := r.openCnt + 1)], disk, files, held + multiset{r.sector}, kept)
  {
    var r := opens[i];
    var opens' := opens[i := r.(openCnt := r.openCnt + 1)];
    UpdatedOpenSectors(opens, i, r.(openCnt := r.openCnt + 1));
    forall j | 0 <= j < |opens'|
      ensures RecOk(opens'[j], disk, files, held + multiset{r.sector}, kept)
    {
      assert RecOk(opens[j], disk, files, held, kept);
    }
    assert r.sector in OpenSectors(opens);
  }

  lemma InodeReopenKeeps(fs: Fs, i: nat)
    requires Inv(fs) && i < |fs.opens|
    ensures Inv(InodeReopen(fs, i))
    ensures Live(InodeReopen(fs, i)) == Live(fs)
  {
    ReopenTable(fs.opens, fs.disk, fs.files, fs.held, Kept(fs.dir), i);
    var r := fs.opens[i];
    UpdatedOpenSectors(fs.opens, i, r.(openCnt := r.openCnt + 1));
  }

  lemma PrependTable(opens: seq<InodeRec>, disk: seq<Block>, files: map<nat, File>, held: multiset<nat>,
                     kept: set<nat>, s: nat)
    requires TableOk(opens, disk, files, held, kept) && s !in OpenSectors(opens)
    requires IsHeader(disk, s) && s in kept
    ensures TableOk([InodeRec(s, 1, 0, false, disk[s].inode)] + opens, disk, files, held + multiset{s}, kept)
    ensures OpenSectors([InodeRec(s, 1, 0, false, disk[s].inode)] + opens) == OpenSectors(opens) + {s}
  {
    var r := InodeRec(s, 1, 0, false, disk[s].inode);
    var opens' := [r] + opens;
    PrependSectors(opens, r);
    assert OnFile(files, s) == {} && Denying(files, s) == {} && held[s] == 0;
    forall j | 0 <= j < |opens'|
      ensures RecOk(opens'[j], disk, files, held + multiset{s}, kept)
    {
      if j > 0 {
        assert RecOk(opens[j - 1], disk, files, held, kept);
        assert opens[j - 1].sector != s;
      }
    }
  }

  lemma PrependSectors(opens: seq<InodeRec>, r: InodeRec)
    ensures OpenSectors([r] + opens) == OpenSectors(opens) + {r.sector}
    ensures DistinctSectors(opens) && r.sector !in OpenSectors(opens) ==> DistinctSectors([r] + opens)
  {
    var opens' := [r] + opens;
    assert opens'[0] == r;
    assert forall j | 0 <= j < |opens| :: opens'[j + 1] == opens[j];
    forall s
      ensures s in OpenSectors(opens') <==> s in OpenSectors(opens) || s == r.sector
    {
      if s in OpenSectors(opens) {
        var j :| 0 <= j < |opens| && opens[j].sector == s;
        assert opens'[j + 1].sector == s;
      }
      if s in OpenSectors(opens') {
        var j :| 0 <= j < |opens'| && opens'[j].sector == s;
        if j > 0 { assert opens[j - 1].sector == s; }
      }
    }
  }

  lemma LiveArePlaced(fs: Fs, s: nat)
    requires Inv(fs) && s in Live(fs)
    ensures Placed(fs.disk, s) && |fs.disk| <= 0x8000_0000
  {
  }

  /** inode_open reads the inode that inode_create wrote. */
  lemma InodeReadBack(disk: seq<Block>, s: nat)
    requires Placed(disk, s) && |disk| <= 0x8000_0000
    ensures SectorInode(BlockSector(disk[s])) == disk[s].inode
  {
    hide InodeSector, SectorInode, BytesToSectors;
    InodeRoundTrip(disk[s].inode);
  }

  /** Opening a file that exists adds one held reference and changes nothing else but the table. */
  lemma InodeOpenKeeps(fs: Fs, s: nat, memOk: bool)
    requires Inv(fs) && s in Kept(fs.dir)
    ensures var (fs', ok) := InodeOpen(fs, s, memOk);
            && Inv(fs') && Live(fs') == Live(fs)
            && (if ok then fs'.held == fs.held + multiset{s} && s in OpenSectors(fs'.opens) else fs' == fs)
            && fs' == fs.(opens := fs'.opens, held := fs'.held)
  {
    hide TableOk, DirOk, Own, FindOpen, OpenSectors, Kept;
    FindOpenIsMembership(fs.opens, s);
    match FindOpen(fs.opens, s)
    case Some(i) =>
      InodeReopenKeeps(fs, i);
      var r := fs.opens[i];
      UpdatedOpenSectors(fs.opens, i, r.(openCnt := r.openCnt + 1));
    case None =>
      if memOk {
        LiveArePlaced(fs, s);
        InodeReadBack(fs.disk, s);
        PrependTable(fs.opens, fs.disk, fs.files, fs.held, Kept(fs.dir), s);
        assert Kept(fs.dir) + (OpenSectors(fs.opens) + {s}) == Live(fs);
      }
  }

  // ---------------------------------------------------------------
  // inode_close
  // ---------------------------------------------------------------

  lemma WithoutSectors(opens: seq<InodeRec>, i: nat)
    requires i < |opens| && DistinctSectors(opens)
    ensures OpenSectors(WithoutOpen(opens, i)) == OpenSectors(opens) - {opens[i].sector}
    ensures DistinctSectors(WithoutOpen(opens, i))
    ensures forall j | 0 <= j < |WithoutOpen(opens, i)| :: WithoutOpen(opens, i)[j] == opens[if j < i then j else j + 1]
  {
    var opens' := WithoutOpen(opens, i);
    forall s
      ensures s in OpenSectors(opens') <==> s in OpenSectors(opens) && s != opens[i].sector
    {
      if s in OpenSectors(opens) && s != opens[i].sector {
        var j :| 0 <= j < |opens| && opens[j].sector == s;
        assert opens'[if j < i then j else j - 1].sector == s;
      }
      if s in OpenSectors(opens') {
        var j :| 0 <= j < |opens'| && opens'[j].sector == s;
        assert opens[if j < i then j else j + 1].sector == s;
      }
    }
  }

  /** Dropping one held reference of several. */
  lemma DropRefTable(opens: seq<InodeRec>, disk: seq<Block>, files: map<nat, File>, held: multiset<nat>,
                     kept: set<nat>, i: nat)
    requires TableOk(opens, disk, files, held, kept) && i < |opens|
    requires held[opens[i].sector] > 0 && opens[i].openCnt > 1
    ensures var r := opens[i];
            TableOk(opens[i := r.(openCnt := r.openCnt - 1)], disk, files, held - multiset{r.sector}, kept)
  {
    var r := opens[i];
    var opens' := opens[i := r.(openCnt := r.openCnt - 1)];
    UpdatedOpenSectors(opens, i, r.(openCnt := r.openCnt - 1));
    forall j | 0 <= j < |opens'|
      ensures RecOk(opens'[j], disk, files, held - multiset{r.sector}, kept)
    {
      assert RecOk(opens[j], disk, files, held, kept);
    }
  }

  /** Dropping the only reference removes the entry. */
  lemma DropLastTable(opens: seq<InodeRec>, disk: seq<Block>, files: map<nat, File>, held: multiset<nat>,
                      kept: set<nat>, i: nat)
    requires TableOk(opens, disk, files, held, kept) && i < |opens|
    requires held[opens[i].sector] > 0 && opens[i].openCnt == 1
    ensures TableOk(WithoutOpen(opens, i), disk, files, held - multiset{opens[i].sector}, kept)
  {
    var s := opens[i].sector;
    WithoutSectors(opens, i);
    var opens' := WithoutOpen(opens, i);
    assert RecOk(opens[i], disk, files, held, kept);
    assert held[s] == 1 && OnFile(files, s) == {};
    forall j | 0 <= j < |opens'|
      ensures RecOk(opens'[j], disk, files, held - multiset{s}, kept)
    {
      assert RecOk(opens[if j < i then j else j + 1], disk, files, held, kept);
    }
    forall id | id in files
      ensures files[id].sector in OpenSectors(opens')
    {
      assert id !in OnFile(files, s);
    }
  }

  lemma HeldIsOpen(fs: Fs, s: nat)
    requires Inv(fs) && fs.held[s] > 0
    ensures s in OpenSectors(fs.opens) && DistinctSectors(fs.opens)
    ensures forall i | 0 <= i < |fs.opens| && fs.opens[i].sector == s ::
              fs.opens[i].openCnt > 0 && (fs.opens[i].removed <==> s !in Kept(fs.dir))
              && IsHeader(fs.disk, s) && fs.disk[s].inode == fs.opens[i].data
  {
    assert AllRecsOk(fs.opens, fs.disk, fs.files, fs.held, Kept(fs.dir));
  }

  /** The two releases of inode_close clear the inode's sectors. */
  lemma ClearedIsReleased(fs: Fs, r: InodeRec)
    requires Placed(fs.disk, r.sector) && |fs.freeMap| == |fs.disk| && fs.disk[r.sector].inode == r.data
    requires RunOf(fs.freeMap, r.sector, 1, true)
    requires RunOf(SetRun(fs.freeMap, r.sector, 1, false), r.data.start, BytesToSectors(r.data.length), true)
    ensures Release(Release(fs, r.sector, 1), r.data.start, BytesToSectors(r.data.length))
         == fs.(freeMap := Cleared(fs.freeMap, fs.disk, r.sector))
  {
  }

  /** Closing a held reference keeps the invariant; when it was the last to a removed inode,
      exactly that inode's sectors become free, and the release assertions hold. */
  lemma InodeCloseKeeps(fs: Fs, s: nat)
    requires Inv(fs) && fs.held[s] > 0 && (s == 0 ==> fs.held[0] > 1)
    ensures var fs' := InodeClose(fs, s);
            && Inv(fs')
            && fs' == fs.(opens := fs'.opens, held := fs.held - multiset{s}, freeMap := fs'.freeMap)
            && (if s in Live(fs') then fs'.freeMap == fs.freeMap && Live(fs') == Live(fs)
                else
                  Placed(fs.disk, s) && fs'.freeMap == Cleared(fs.freeMap, fs.disk, s) && Live(fs') == Live(fs) - {s})
  {
    hide TableOk, DirOk, Own, FindOpen, OpenSectors, Kept, WithoutOpen, Cleared, SetRun, RunOf, RecOk, BytesToSectors;
    HeldIsOpen(fs, s);
    FindOpenIsMembership(fs.opens, s);
    var i := FindOpen(fs.opens, s).value;
    var r := fs.opens[i];
    var kept := Kept(fs.dir);
    if r.openCnt == 1 {
      DropLastTable(fs.opens, fs.disk, fs.files, fs.held, kept, i);
      WithoutSectors(fs.opens, i);
      if r.removed {
        LiveSectorsUsed(fs.freeMap, fs.disk, Live(fs), fs.leaked, s);
        OwnDrop(fs.freeMap, fs.disk, Live(fs), fs.leaked, s);
        ClearedIsReleased(fs, r);
        assert kept + (OpenSectors(fs.opens) - {s}) == Live(fs) - {s};
      } else {
        assert kept + (OpenSectors(fs.opens) - {s}) == Live(fs);
      }
    } else {
      DropRefTable(fs.opens, fs.disk, fs.files, fs.held, kept, i);
      UpdatedOpenSectors(fs.opens, i, r.(openCnt := r.openCnt - 1));
    }
  }
}
