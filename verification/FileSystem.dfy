/** The file system as the source runs it: tables searched and changed in place. Each method
    is proved to take the step of the state machine that bears its name. */
module FileSystem {
  import opened Options
  import opened Bitmap
  import opened Bytes
  import opened FsModel
  import opened FsOwnership
  import opened FsInvariant
  import opened FsRuns
  import opened FsContent
  import InodeIO

  class FileSystem {
    const freeMap: Bitmap
    const dev: InodeIO.Device
    const dir: array<Entry>
    var opens: seq<InodeRec>
    var files: map<nat, File>
    var panicked: bool
    ghost var disk: seq<Block>
    ghost var held: multiset<nat>
    ghost var leaked: set<nat>

    ghost function State(): Fs
      reads this, freeMap, freeMap.bits, dir
    {
      Fs(freeMap.bits[..], disk, dir[..], opens, files, panicked, held, leaked)
    }

    /** disk tells inodes from data; the device has the bytes. */
    ghost predicate Valid()
      reads this`disk, dev, dev.sectors
    {
      dev.sectors[..] == Sectors(disk) && |disk| <= 0x8000_0000
    }

    constructor (freeMap: Bitmap, dev: InodeIO.Device, dir: array<Entry>, ghost disk: seq<Block>)
      requires dev.sectors[..] == Sectors(disk) && |disk| <= 0x8000_0000
      ensures this.freeMap == freeMap && this.dev == dev && this.dir == dir && Valid()
      ensures State() == Fs(freeMap.bits[..], disk, dir[..], [], map[], false, multiset{}, {})
    {
      this.freeMap, this.dev, this.dir := freeMap, dev, dir;
      opens, files, panicked := [], map[], false;
      this.disk, held, leaked := disk, multiset{}, {};
    }

    // free-map.c

    method FreeMapAllocate(cnt: nat, writeOk: bool) returns (sector: Option<nat>)
      modifies freeMap.bits
      ensures (State(), sector) == Allocate(old(State()), cnt, writeOk)
    {
      sector := freeMap.ScanAndFlip(0, cnt, false);
      if sector.Some? && !writeOk {
        freeMap.SetMultiple(sector.value, cnt, false);
        sector := None;
      }
    }

    method FreeMapRelease(sector: nat, cnt: nat)
      modifies this`panicked, freeMap.bits
      ensures State() == Release(old(State()), sector, cnt)
    {
      if sector + cnt > freeMap.bits.Length {
        panicked := true;
        return;
      }
      var all := freeMap.All(sector, cnt);
      if !all {
        panicked := true;
        return;
      }
      freeMap.SetMultiple(sector, cnt, false);
    }

    // inode.c

    /** The search loop of inode_open; also stands for following a struct inode pointer. */
    method FindInode(sector: nat) returns (r: Option<nat>)
      ensures r == FindOpen(opens, sector)
    {
      var i := 0;
      while i < |opens|
        invariant 0 <= i <= |opens|
        invariant forall j | 0 <= j < i :: opens[j].sector != sector
      {
        if opens[i].sector == sector {
          FindOpenUnique(opens, sector, Some(i));
          return Some(i);
        }
        i := i + 1;
      }
      FindOpenUnique(opens, sector, None);
      return None;
    }

    method ReopenInode(i: nat)
      requires i < |opens|
      modifies this`opens, this`held
      ensures State() == InodeReopen(old(State()), i)
    {
      var r := opens[i];
      opens := opens[i := r.(openCnt := r.openCnt + 1)];
      held := held + multiset{r.sector};
    }

    method OpenInode(sector: nat, memOk: bool) returns (ok: bool)
      requires Valid()
      modifies this`opens, this`held, this`panicked
      ensures (State(), ok) == InodeOpen(old(State()), sector, memOk)
    {
      var found := FindInode(sector);
      if found.Some? {
        ReopenInode(found.value);
        return true;
      }
      if !memOk {
        return false;
      }
      if sector >= dev.sectors.Length {
        panicked := true;
        return false;
      }
      opens := [InodeRec(sector, 1, 0, false, SectorInode(dev.sectors[sector]))] + opens;
      held := held + multiset{sector};
      return true;
    }

    method CloseInode(sector: nat)
      modifies this`opens, this`held, this`panicked, freeMap.bits
      ensures State() == InodeClose(old(State()), sector)
    {
      hide Release, FindOpen, BytesToSectors;
      var found := FindInode(sector);
      if found.None? {
        panicked := true;
        return;
      }
      var i := found.value;
      var r := opens[i].(openCnt := opens[i].openCnt - 1);
      held := held - multiset{sector};
      if r.openCnt == 0 {
        opens := opens[..i] + opens[i + 1..];
        if r.removed {
          FreeMapRelease(r.sector, 1);
          FreeMapRelease(r.data.start, BytesToSectors(r.data.length));
        }
      } else {
        opens := opens[i := r];
      }
    }

    /** The loop of inode_create that clears the data sectors. */
    method ZeroSectors(start: nat, cnt: nat)
      requires Valid() && start + cnt <= dev.sectors.Length
      modifies this`disk, dev.sectors
      ensures Valid() && disk == ZeroRun(old(disk), start, cnt)
    {
      var i := 0;
      while i < cnt
        invariant 0 <= i <= cnt
        invariant Valid() && disk == ZeroRun(old(disk), start, i)
      {
        dev.BlockWrite(start + i, InodeIO.ZeroSector());
        disk := disk[start + i := Data(InodeIO.ZeroSector())];
        i := i + 1;
      }
    }

    method CreateInode(sector: nat, length: int, memOk: bool, writeOk: bool) returns (ok: bool)
      requires Valid() && sector < dev.sectors.Length == freeMap.bits.Length
      modifies this`panicked, this`disk, freeMap.bits, dev.sectors
      ensures Valid() && (State(), ok) == InodeCreate(old(State()), sector, length, memOk, writeOk)
    {
      if length < 0 {
        panicked := true;
        return false;
      }
      if !memOk {
        return false;
      }
      hide FirstRun, SetRun, BytesToSectors, ZeroRun, InodeSector;
      ghost var s0 := State();
      var sectors := BytesToSectors(length);
      AllocateWithin(s0, sectors, writeOk);
      var start := FreeMapAllocate(sectors, writeOk);
      if start.None? {
        return false;
      }
      dev.BlockWrite(sector, InodeSector(DiskInode(start.value, length)));
      disk := disk[sector := Header(DiskInode(start.value, length))];
      ZeroSectors(start.value, sectors);
      return true;
    }

    method RemoveInode(sector: nat)
      modifies this`opens, this`panicked
      ensures State() == MarkRemoved(old(State()), sector)
    {
      var found := FindInode(sector);
      if found.None? {
        panicked := true;
      } else {
        opens := opens[found.value := opens[found.value].(removed := true)];
      }
    }

    method DenyInode(sector: nat)
      modifies this`opens, this`panicked
      ensures State() == InodeDeny(old(State()), sector)
    {
      var found := FindInode(sector);
      if found.None? {
        panicked := true;
        return;
      }
      var r := opens[found.value].(denyWriteCnt := opens[found.value].denyWriteCnt + 1);
      opens := opens[found.value := r];
      if !(r.denyWriteCnt <= r.openCnt) {
        panicked := true;
      }
    }

    method AllowInode(sector: nat)
      modifies this`opens, this`panicked
      ensures State() == InodeAllow(old(State()), sector)
    {
      var found := FindInode(sector);
      if found.None? {
        panicked := true;
        return;
      }
      var r := opens[found.value];
      if !(r.denyWriteCnt > 0) || !(r.denyWriteCnt <= r.openCnt) {
        panicked := true;
      }
      opens := opens[found.value := r.(denyWriteCnt := r.denyWriteCnt - 1)];
    }

    // directory.c

    method LookupEntry(name: Name) returns (r: Option<nat>)
      ensures r == Lookup(dir[..], name)
    {
      var i := 0;
      while i < dir.Length
        invariant 0 <= i <= dir.Length
        invariant forall j | 0 <= j < i :: !(dir[j].inUse && dir[j].name == name)
      {
        if dir[i].inUse && dir[i].name == name {
          LookupUnique(dir[..], name, Some(i));
          return Some(i);
        }
        i := i + 1;
      }
      LookupUnique(dir[..], name, None);
      return None;
    }

    method AddEntry(name: Name, sector: nat) returns (ok: bool)
      modifies dir
      ensures (State(), ok) == DirAdd(old(State()), name, sector)
    {
      if name == [] || |name| > 14 {
        return false;
      }
      var found := LookupEntry(name);
      if found.Some? {
        return false;
      }
      var i := 0;
      while i < dir.Length && dir[i].inUse
        invariant 0 <= i <= dir.Length
        invariant forall j | 0 <= j < i :: dir[j].inUse
      {
        i := i + 1;
      }
      FreeSlotUnique(dir[..], if i < dir.Length then Some(i) else None);
      if i == dir.Length {
        return false;
      }
      dir[i] := Entry(true, name, sector);
      return true;
    }

    method RemoveEntry(name: Name, memOk: bool) returns (ok: bool)
      requires Valid()
      modifies this`opens, this`held, this`panicked, freeMap.bits, dir
      ensures (State(), ok) == DirRemove(old(State()), name, memOk)
    {
      hide InodeOpen, InodeClose, MarkRemoved;
      var found := LookupEntry(name);
      if found.None? {
        return false;
      }
      var i := found.value;
      var sector := dir[i].sector;
      ok := OpenInode(sector, memOk);
      if !ok {
        return false;
      }
      OpenKeepsDir(old(State()), sector, memOk);
      dir[i] := dir[i].(inUse := false);
      RemoveInode(sector);
      CloseInode(sector);
    }

    // filesys.c

    method OpenRootDir(ok: Faults) returns (r: bool)
      requires Valid()
      modifies this`opens, this`held, this`panicked, freeMap.bits
      ensures (State(), r) == OpenRoot(old(State()), ok)
    {
      hide InodeOpen, InodeClose;
      r := OpenInode(1, ok.rootInode);
      if r && !ok.rootDir {
        CloseInode(1);
        r := false;
      }
    }

    method FilesysCreate(name: Name, size: int, ok: Faults) returns (success: bool)
      requires Valid() && dev.sectors.Length == freeMap.bits.Length
      modifies this, freeMap.bits, dev.sectors, dir
      ensures Valid() && (State(), success) == Create(old(State()), name, size, ok)
    {
      hide OpenRoot, InodeClose, CreateIn;
      ghost var s0 := State();
      var isOpen := OpenRootDir(ok);
      if !isOpen {
        return false;
      }
      success := CreateEntry(name, size, ok);
      CloseInode(1);
    }

    /** The inode and the entry of filesys_create. */
    method PlaceInode(sector: nat, name: Name, size: int, ok: Faults) returns (created: bool, added: bool)
      requires Valid() && sector < dev.sectors.Length == freeMap.bits.Length
      modifies this`panicked, this`disk, freeMap.bits, dev.sectors, dir
      ensures Valid() && created == InodeCreate(old(State()), sector, size, ok.diskInode, ok.dataWrite).1
      ensures var (fs2, r) := InodeCreate(old(State()), sector, size, ok.diskInode, ok.dataWrite);
              (State(), added) == if r then DirAdd(fs2, name, sector) else (fs2, false)
    {
      hide InodeCreate, DirAdd, Valid;
      created := CreateInode(sector, size, ok.diskInode, ok.dataWrite);
      added := false;
      if created {
        added := AddEntry(name, sector);
      }
    }

    method CreateEntry(name: Name, size: int, ok: Faults) returns (success: bool)
      requires Valid() && dev.sectors.Length == freeMap.bits.Length
      modifies this, freeMap.bits, dev.sectors, dir
      ensures Valid() && (State(), success) == CreateIn(old(State()), name, size, ok)
    {
      hide Allocate, InodeCreate, DirAdd, Release, DataOf, Valid;
      AllocateWithin(State(), 1, ok.headerWrite);
      var inodeSector := 0;
      var header := FreeMapAllocate(1, ok.headerWrite);
      if header.None? {
        return false;
      }
      inodeSector := header.value;
      ghost var created;
      created, success := PlaceInode(inodeSector, name, size, ok);
      if !success && inodeSector != 0 {
        leaked := leaked + if created then DataOf(disk, inodeSector) else {};
        FreeMapRelease(inodeSector, 1);
      }
    }

    method OpenAsFile(sector: nat, id: nat, memOk: bool) returns (r: bool)
      modifies this`opens, this`held, this`panicked, this`files, freeMap.bits
      ensures (State(), r) == FileOpen(old(State()), sector, id, memOk)
    {
      hide InodeClose;
      if memOk {
        files := files[id := File(sector, false, 0)];
        held := held - multiset{sector};
        return true;
      }
      CloseInode(sector);
      return false;
    }

    method FilesysOpen(name: Name, id: nat, ok: Faults) returns (r: bool)
      requires Valid()
      modifies this`opens, this`held, this`panicked, this`files, freeMap.bits
      ensures (State(), r) == Open(old(State()), name, id, ok)
    {
      hide OpenRoot, InodeOpen, InodeClose, FileOpen, Lookup;
      var isOpen := OpenRootDir(ok);
      if !isOpen {
        return false;
      }
      var found := LookupEntry(name);
      if found.None? {
        CloseInode(1);
        return false;
      }
      var sector := dir[found.value].sector;
      r := OpenInode(sector, ok.inode);
      CloseInode(1);
      if r {
        r := OpenAsFile(sector, id, ok.file);
      }
    }

    method FilesysRemove(name: Name, ok: Faults) returns (success: bool)
      requires Valid()
      modifies this`opens, this`held, this`panicked, freeMap.bits, dir
      ensures (State(), success) == Remove(old(State()), name, ok)
    {
      hide OpenRoot, DirRemove, InodeClose;
      var isOpen := OpenRootDir(ok);
      if !isOpen {
        return false;
      }
      success := RemoveEntry(name, ok.inode);
      CloseInode(1);
    }

    // file.c

    method FileReopen(id: nat, id2: nat, ok: Faults) returns (r: bool)
      requires id in files
      modifies this`opens, this`held, this`panicked, this`files, freeMap.bits
      ensures (State(), r) == Reopen(old(State()), id, id2, ok)
    {
      hide InodeReopen, FileOpen;
      var sector := files[id].sector;
      var found := FindInode(sector);
      if found.None? {
        panicked := true;
        return false;
      }
      ReopenInode(found.value);
      r := OpenAsFile(sector, id2, ok.file);
    }

    method FileDenyWrite(id: nat)
      requires id in files
      modifies this`opens, this`panicked, this`files
      ensures State() == DenyWrite(old(State()), id)
    {
      hide InodeDeny;
      if !files[id].denyWrite {
        files := files[id := files[id].(denyWrite := true)];
        DenyInode(files[id].sector);
      }
    }

    method FileAllowWrite(id: nat)
      requires id in files
      modifies this`opens, this`panicked, this`files
      ensures State() == AllowWrite(old(State()), id)
    {
      hide InodeAllow;
      if files[id].denyWrite {
        files := files[id := files[id].(denyWrite := false)];
        AllowInode(files[id].sector);
      }
    }

    method FileClose(id: nat)
      requires id in files
      modifies this`opens, this`held, this`panicked, this`files, freeMap.bits
      ensures State() == Close(old(State()), id)
    {
      hide InodeClose, AllowWrite;
      AllowKeepsFile(State(), id);
      FileAllowWrite(id);
      var sector := files[id].sector;
      files := files - {id};
      held := held + multiset{sector};
      CloseInode(sector);
    }

    method FileSeek(id: nat, pos: nat)
      requires id in files
      modifies this`files
      ensures State() == Seek(old(State()), id, pos)
    {
      files := files[id := files[id].(pos := pos)];
    }

    /** file_length. */
    method FileLength(id: nat) returns (n: nat)
      requires Valid() && Inv(State()) && id in files
      ensures Placed(disk, files[id].sector) && n == |Content(disk, files[id].sector)|
    {
      hide Inv, FindOpen, Placed, Content;
      EntryFacts(State(), id);
      var found := FindInode(files[id].sector);
      n := opens[found.value].data.length;
    }

    /** file_read through the inode's record: from the position on, as many bytes as asked for or up to
        the end of the file. */
    method FileRead(id: nat, buffer: array<byte>, size: nat, bounceOk: bool) returns (n: nat)
      requires Valid() && Inv(State()) && id in files && size <= buffer.Length
      modifies this`files, buffer
      ensures State() == Seek(old(State()), id, old(files[id].pos) + n)
      ensures Placed(disk, old(files[id].sector))
      ensures var c, pos := Content(disk, old(files[id].sector)), old(files[id].pos);
              && n <= size && (n > 0 ==> pos + n <= |c|)
              && (bounceOk && size > 0 && pos < |c| ==> n > 0 && (n == size || pos + n == |c|))
              && buffer[..] == Patch(old(buffer[..]), 0, InodeIO.Stretch(c, pos, n))
    {
      hide Inv, Patch, InodeIO.Stretch, InodeIO.Flat, BytesToSectors, InodeIO.TransferCount, FindOpen, Placed, Content;
      hide InodeIO.SectorCount;
      EntryFacts(State(), id);
      var found := FindInode(files[id].sector);
      var r := opens[found.value];
      var node := new InodeIO.Inode(r.data.start, r.data.length);
      var file := new InodeIO.File(node);
      ContentIs(disk, files[id].sector, r.data);
      file.Seek(files[id].pos);
      assert file.inode.Content(dev) == Content(disk, files[id].sector);
      n := file.Read(dev, buffer, size, bounceOk);
      files := files[id := files[id].(pos := file.pos)];
    }

    /** file_write's transfer to the data sectors of the inode of record r. */
    method TransferOut(r: InodeRec, pos: nat, buffer: array<byte>, size: nat, bounceOk: bool) returns (n: nat)
      requires Valid() && size <= buffer.Length
      requires r.data.start + InodeIO.SectorCount(r.data.length) <= |disk|
      modifies this`disk, dev.sectors
      ensures Valid() && n <= InodeIO.TransferCount(size, pos, r.data.length) <= size
      ensures r.denyWriteCnt != 0 ==> n == 0
      ensures bounceOk && r.denyWriteCnt == 0 ==> n == InodeIO.TransferCount(size, pos, r.data.length)
      ensures n == 0 ==> disk == old(disk)
      ensures n > 0 ==> 512 * r.data.start + pos + n <= 512 * |old(disk)|
      ensures n > 0 ==> disk == Overwritten(old(disk), 512 * r.data.start + pos, buffer[..n])
    {
      hide Patch, InodeIO.Flat, Overwritten;
      var node := new InodeIO.Inode(r.data.start, r.data.length);
      node.denyWriteCnt := r.denyWriteCnt;
      var file := new InodeIO.File(node);
      file.Seek(pos);
      n := file.Write(dev, buffer, size, bounceOk);
      if n > 0 {
        FlatOverwritten(disk, 512 * r.data.start + pos, buffer[..n]);
        FlatInjective(dev.sectors[..], Sectors(Overwritten(disk, 512 * r.data.start + pos, buffer[..n])));
        disk := Overwritten(disk, 512 * r.data.start + pos, buffer[..n]);
      }
    }

    /** file_write likewise. */
    method FileWrite(id: nat, buffer: array<byte>, size: nat, bounceOk: bool) returns (n: nat)
      requires Valid() && Inv(State()) && id in files && size <= buffer.Length
      modifies this`files, this`disk, dev.sectors
      ensures Valid() && n <= size && State() == Write(old(State()), id, buffer[..size], n)
      ensures n == WriteCount(old(State()), id, buffer[..size], n)
      ensures bounceOk ==> n == WriteCount(old(State()), id, buffer[..size], size)
    {
      hide Inv, BytesToSectors, Overwritten, Placed, FindOpen, Write, WriteCount, Valid, InodeIO.SectorCount;
      hide InodeIO.TransferCount;
      ghost var fs := State();
      EntryFacts(fs, id);
      var found := FindInode(files[id].sector);
      var r, pos := opens[found.value], files[id].pos;
      n := TransferOut(r, pos, buffer, size, bounceOk);
      WriteParts(fs, id, buffer[..size], n);
      if n > 0 {
        files := files[id := files[id].(pos := pos + n)];
        assert buffer[..size][..n] == buffer[..n];
      }
    }
  }

  // ---------------------------------------------------------------
  // The searches have one answer, and what single steps leave alone
  // ---------------------------------------------------------------

  /** What the table says of an open file's inode. */
  lemma EntryFacts(fs: Fs, id: nat)
    requires Inv(fs) && id in fs.files
    ensures FindOpen(fs.opens, fs.files[id].sector).Some?
    ensures var s, r := fs.files[id].sector, fs.opens[FindOpen(fs.opens, fs.files[id].sector).value];
            && Placed(fs.disk, s) && |fs.disk| <= 0x8000_0000 && fs.disk[s] == Header(r.data)
            && r.data.start + InodeIO.SectorCount(r.data.length) <= |fs.disk|
            && 512 * r.data.start + r.data.length <= 512 * |fs.disk|
  {
    hide Inv, FindOpen, BytesToSectors;
    FileEntry(fs, id);
    LiveArePlaced(fs, fs.files[id].sector);
    OnDisk(fs.disk, fs.files[id].sector);
  }

  lemma ContentIs(disk: seq<Block>, s: nat, d: DiskInode)
    requires Placed(disk, s) && |disk| <= 0x8000_0000 && disk[s] == Header(d)
    ensures 512 * d.start + d.length <= 512 * |disk|
    ensures Content(disk, s) == InodeIO.Flat(Sectors(disk))[512 * d.start..512 * d.start + d.length]
  {
    OnDisk(disk, s);
  }

  lemma WriteParts(fs: Fs, id: nat, w: seq<byte>, n: nat)
    requires Inv(fs) && id in fs.files && FindOpen(fs.opens, fs.files[id].sector).Some?
    requires var r := fs.opens[FindOpen(fs.opens, fs.files[id].sector).value];
             && n <= InodeIO.TransferCount(|w|, fs.files[id].pos, r.data.length) && (r.denyWriteCnt != 0 ==> n == 0)
    ensures var r, pos := fs.opens[FindOpen(fs.opens, fs.files[id].sector).value], fs.files[id].pos;
            && n == WriteCount(fs, id, w, n) && n <= |w|
            && WriteCount(fs, id, w, |w|) ==
                 (if r.denyWriteCnt != 0 then 0 else InodeIO.TransferCount(|w|, pos, r.data.length))
            && (n > 0 ==> 512 * r.data.start + pos + n <= 512 * |fs.disk|)
            && Write(fs, id, w, n) ==
                 if n == 0 then fs
                 else Seek(fs.(disk := Overwritten(fs.disk, 512 * r.data.start + pos, w[..n])), id, pos + n)
  {
    hide Inv, FindOpen, Overwritten, Placed;
    EntryFacts(fs, id);
  }

  lemma FindOpenUnique(opens: seq<InodeRec>, sector: nat, r: Option<nat>)
    requires r.Some? ==> r.value < |opens| && opens[r.value].sector == sector && forall j | 0 <= j < r.value ::
               opens[j].sector != sector
    requires r.None? ==> forall j | 0 <= j < |opens| :: opens[j].sector != sector
    ensures r == FindOpen(opens, sector)
  {
    var q := FindOpen(opens, sector);
    if q.Some? && r.Some? { assert q.value <= r.value <= q.value; }
  }

  lemma LookupUnique(dir: seq<Entry>, name: Name, r: Option<nat>)
    requires r.Some? ==> r.value < |dir| && dir[r.value].inUse && dir[r.value].name == name
    requires r.Some? ==> forall j | 0 <= j < r.value :: !(dir[j].inUse && dir[j].name == name)
    requires r.None? ==> forall j | 0 <= j < |dir| :: !(dir[j].inUse && dir[j].name == name)
    ensures r == Lookup(dir, name)
  {
    var q := Lookup(dir, name);
    if q.Some? && r.Some? { assert q.value <= r.value <= q.value; }
  }

  lemma FreeSlotUnique(dir: seq<Entry>, r: Option<nat>)
    requires r.Some? ==> r.value < |dir| && !dir[r.value].inUse && forall j | 0 <= j < r.value :: dir[j].inUse
    requires r.None? ==> forall j | 0 <= j < |dir| :: dir[j].inUse
    ensures r == FreeSlot(dir)
  {
    var q := FreeSlot(dir);
    if q.Some? && r.Some? { assert q.value <= r.value <= q.value; }
  }

  lemma OpenKeepsDir(fs: Fs, sector: nat, memOk: bool)
    ensures InodeOpen(fs, sector, memOk).0.dir == fs.dir
  {
  }

  lemma AllocateWithin(fs: Fs, cnt: nat, writeOk: bool)
    ensures var (fs1, r) := Allocate(fs, cnt, writeOk);
            && fs1 == fs.(freeMap := fs1.freeMap) && |fs1.freeMap| == |fs.freeMap|
            && (r.Some? ==> r.value + cnt <= |fs.freeMap|)
  {
  }

  lemma AllowKeepsFile(fs: Fs, id: nat)
    requires id in fs.files
    ensures id in AllowWrite(fs, id).files && AllowWrite(fs, id).files[id].sector == fs.files[id].sector
  {
  }
}
