/** The file system as a state machine: free map, on-disk inodes, root directory, table of
    open inodes and open files (filesys/filesys.c, inode.c, free-map.c, directory.c, file.c).
    A failed ASSERT of the source sets panicked. */
module FsModel {
  import opened Options
  import opened Bitmap
  import opened Bytes
  import InodeIO

  /** struct inode_disk: 512 bytes, of which the first twelve hold the start sector, the length and
      the magic number, and the rest nothing. */
  datatype DiskInode = DiskInode(start: nat, length: nat)

  function LowByte(n: nat): byte { n % 256 }

  /** A 32-bit word in memory, low byte first. */
  function WordBytes(n: nat): (r: seq<byte>)
    ensures |r| == 4
  {
    [LowByte(n), LowByte(n / 0x100), LowByte(n / 0x1_0000), LowByte(n / 0x100_0000)]
  }

  function WordAt(s: seq<byte>, i: nat): nat
    requires i + 4 <= |s|
  {
    s[i] as int + 0x100 * s[i + 1] as int + 0x1_0000 * s[i + 2] as int + 0x100_0000 * s[i + 3] as int
  }

  function InodeSector(d: DiskInode): InodeIO.Sector {
    WordBytes(d.start) + WordBytes(d.length) + WordBytes(0x494e4f44) + seq(500, _ => 0)
  }

  function SectorInode(s: InodeIO.Sector): DiskInode { DiskInode(WordAt(s, 0), WordAt(s, 4)) }

  /** An inode written to its sector is read back. */
  lemma InodeRoundTrip(d: DiskInode)
    requires d.start < 0x1_0000_0000 && d.length < 0x1_0000_0000
    ensures SectorInode(InodeSector(d)) == d
  {
    WordRoundTrip(d.start);
    WordRoundTrip(d.length);
    var s := InodeSector(d);
    assert s[0..4] == WordBytes(d.start) && s[4..8] == WordBytes(d.length);
  }

  lemma WordRoundTrip(n: nat)
    requires n < 0x1_0000_0000
    ensures WordAt(WordBytes(n), 0) == n
  {
    var q := n / 0x1_0000;
    assert n / 0x100_0000 == q / 0x100;
    HalfParts(n % 0x1_0000);
    HalfParts(q);
    assert LowByte(n / 0x100) == n % 0x1_0000 / 0x100;
  }

  lemma HalfParts(h: nat)
    requires h < 0x1_0000
    ensures LowByte(h) as int + 0x100 * LowByte(h / 0x100) as int == h && h / 0x100 < 0x100
  {
  }

  /** What a sector of the device holds. */
  datatype Block = Header(inode: DiskInode) | Data(bytes: InodeIO.Sector)

  function BlockSector(b: Block): InodeIO.Sector {
    match b
    case Header(d) => InodeSector(d)
    case Data(bytes) => bytes
  }

  /** The device as sectors, and as bytes. */
  ghost function Sectors(disk: seq<Block>): (r: seq<InodeIO.Sector>)
    ensures |r| == |disk| && forall i | 0 <= i < |r| :: r[i] == BlockSector(disk[i])
  {
    seq(|disk|, i requires 0 <= i < |disk| => BlockSector(disk[i]))
  }

  ghost function FlatDisk(disk: seq<Block>): (r: seq<byte>)
    ensures |r| == 512 * |disk|
  {
    InodeIO.Flat(Sectors(disk))
  }

  /** The bytes from p on overwritten by w; the sectors that w reaches are data sectors afterwards. */
  ghost function Overwritten(disk: seq<Block>, p: nat, w: seq<byte>): (r: seq<Block>)
    requires p + |w| <= 512 * |disk|
    ensures |r| == |disk|
  {
    var f := Patch(FlatDisk(disk), p, w);
    seq(|disk|, i requires 0 <= i < |disk| =>
      if p < 512 * i + 512 && 512 * i < p + |w| then Data(f[512 * i..512 * i + 512]) else disk[i])
  }

  type Name = seq<byte>

  datatype Entry = Entry(inUse: bool, name: Name, sector: nat)

  /** An element of open_inodes. */
  datatype InodeRec = InodeRec(sector: nat, openCnt: int, denyWriteCnt: int, removed: bool, data: DiskInode)

  /** An open file; its inode is the open inode of that sector. */
  datatype File = File(sector: nat, denyWrite: bool, pos: nat)

  /** held counts the references to open inodes that no file has: the free map file's, and
      those of directories and local variables within an operation. leaked records the data
      sectors of creations undone after their allocation. Both are history only. */
  datatype Fs = Fs(freeMap: seq<bool>, disk: seq<Block>, dir: seq<Entry>, opens: seq<InodeRec>,
                   files: map<nat, File>, panicked: bool, held: multiset<nat>, leaked: set<nat>)

  // FREE_MAP_SECTOR is 0, ROOT_DIR_SECTOR is 1, NAME_MAX is 14.

  /** bytes_to_sectors: the rounding sum is a 32-bit int and wraps to a negative number, whose
      truncated quotient becomes a huge unsigned count. */
  function BytesToSectors(length: nat): (n: nat)
  {
    if length + 511 < 0x8000_0000 then (length + 511) / 512
    else if length + 511 < 0x1_0000_0000 then 0x1_0000_0000 - (0x1_0000_0000 - (length + 511)) / 512
    else 0
  }

  /** A count that fits a device of up to 2^31 sectors is the rounded-up quotient. */
  lemma SectorsOfAllocated(length: nat)
    requires length < 0x8000_0000 && BytesToSectors(length) <= 0x8000_0000
    ensures BytesToSectors(length) == InodeIO.SectorCount(length)
  {
  }

  ghost function Range(start: nat, cnt: nat): (r: set<nat>)
    ensures forall x: nat :: x in r <==> start <= x < start + cnt
  {
    if cnt == 0 then {} else Range(start, cnt - 1) + {start + cnt - 1}
  }

  // ---------------------------------------------------------------
  // free-map.c
  // ---------------------------------------------------------------

  /** free_map_allocate; writeOk tells whether the free map file could be written. */
  ghost function Allocate(fs: Fs, cnt: nat, writeOk: bool): (Fs, Option<nat>) {
    match FirstRun(fs.freeMap, 0, cnt, false)
    case None => (fs, None)
    case Some(i) =>
      var marked := SetRun(fs.freeMap, i, cnt, true);
      if writeOk then (fs.(freeMap := marked), Some(i))
      else (fs.(freeMap := SetRun(marked, i, cnt, false)), None)
  }

  /** free_map_release, which asserts that the sectors are in use. */
  ghost function Release(fs: Fs, sector: nat, cnt: nat): Fs {
    if RunOf(fs.freeMap, sector, cnt, true)
    then fs.(freeMap := SetRun(fs.freeMap, sector, cnt, false))
    else fs.(panicked := true)
  }

  // ---------------------------------------------------------------
  // inode.c
  // ---------------------------------------------------------------

  /** The place of a sector's inode in the table of open inodes. */
  ghost function FindOpen(opens: seq<InodeRec>, sector: nat): (r: Option<nat>)
    ensures r.Some? ==> r.value < |opens| && opens[r.value].sector == sector
    ensures r.Some? ==> forall j | 0 <= j < r.value :: opens[j].sector != sector
    ensures r.None? ==> forall j | 0 <= j < |opens| :: opens[j].sector != sector
  {
    if opens == [] then None
    else if opens[0].sector == sector then Some(0)
    else match FindOpen(opens[1..], sector)
      case None => None
      case Some(i) => Some(i + 1)
  }

  ghost predicate IsHeader(disk: seq<Block>, sector: nat) {
    sector < |disk| && disk[sector].Header?
  }

  /** inode_reopen. */
  ghost function InodeReopen(fs: Fs, i: nat): Fs
    requires i < |fs.opens|
  {
    var r := fs.opens[i];
    fs.(opens := fs.opens[i := r.(openCnt := r.openCnt + 1)], held := fs.held + multiset{r.sector})
  }

  /** inode_open; memOk tells whether malloc succeeds. */
  ghost function InodeOpen(fs: Fs, sector: nat, memOk: bool): (Fs, bool) {
    match FindOpen(fs.opens, sector)
    case Some(i) => (InodeReopen(fs, i), true)
    case None =>
      if !memOk then (fs, false)
      else if sector >= |fs.disk| then (fs.(panicked := true), false)
      else (fs.(opens := [InodeRec(sector, 1, 0, false, SectorInode(BlockSector(fs.disk[sector])))] + fs.opens,
                held := fs.held + multiset{sector}), true)
  }

  ghost function WithoutOpen(opens: seq<InodeRec>, i: nat): seq<InodeRec>
    requires i < |opens|
  {
    opens[..i] + opens[i + 1..]
  }

  /** inode_close of one held reference. */
  ghost function InodeClose(fs: Fs, sector: nat): Fs {
    match FindOpen(fs.opens, sector)
    case None => fs.(panicked := true)
    case Some(i) =>
      var r := fs.opens[i];
      if r.openCnt - 1 == 0 then
        var closed := fs.(opens := WithoutOpen(fs.opens, i), held := fs.held - multiset{sector});
        if r.removed then
          Release(Release(closed, r.sector, 1), r.data.start, BytesToSectors(r.data.length))
        else closed
      else
        fs.(opens := fs.opens[i := r.(openCnt := r.openCnt - 1)], held := fs.held - multiset{sector})
  }

  /** disk with cnt sectors of zeros from start on. */
  ghost function ZeroRun(disk: seq<Block>, start: nat, cnt: nat): (r: seq<Block>)
    requires start + cnt <= |disk|
    ensures |r| == |disk|
    ensures forall i | 0 <= i < |disk| :: r[i] == if start <= i < start + cnt then Data(InodeIO.ZeroSector())
            else disk[i]
  {
    disk[..start] + seq(cnt, _ => Data(InodeIO.ZeroSector())) + disk[start + cnt..]
  }

  /** inode_create, which asserts a nonnegative length. */
  ghost function InodeCreate(fs: Fs, sector: nat, length: int, memOk: bool, writeOk: bool): (Fs, bool)
    requires sector < |fs.disk| == |fs.freeMap|
  {
    if length < 0 then (fs.(panicked := true), false)
    else if !memOk then (fs, false)
    else
      var n := BytesToSectors(length);
      match Allocate(fs, n, writeOk)
      case (fs1, None) => (fs1, false)
      case (fs1, Some(start)) =>
        (fs1.(disk := ZeroRun(fs1.disk[sector := Header(DiskInode(start, length))], start, n)), true)
  }

  /** inode_deny_write and inode_allow_write, with their assertions. */
  ghost function InodeDeny(fs: Fs, sector: nat): Fs {
    match FindOpen(fs.opens, sector)
    case None => fs.(panicked := true)
    case Some(i) =>
      var r := fs.opens[i].(denyWriteCnt := fs.opens[i].denyWriteCnt + 1);
      fs.(opens := fs.opens[i := r], panicked := fs.panicked || !(r.denyWriteCnt <= r.openCnt))
  }

  ghost function InodeAllow(fs: Fs, sector: nat): Fs {
    match FindOpen(fs.opens, sector)
    case None => fs.(panicked := true)
    case Some(i) =>
      var r := fs.opens[i];
      fs.(opens := fs.opens[i := r.(denyWriteCnt := r.denyWriteCnt - 1)],
          panicked := fs.panicked || !(0 < r.denyWriteCnt <= r.openCnt))
  }

  // ---------------------------------------------------------------
  // directory.c
  // ---------------------------------------------------------------

  /** lookup: the first entry in use under name. */
  ghost function Lookup(dir: seq<Entry>, name: Name): (r: Option<nat>)
    ensures r.Some? ==> r.value < |dir| && dir[r.value].inUse && dir[r.value].name == name
    ensures r.Some? ==> forall j | 0 <= j < r.value :: !(dir[j].inUse && dir[j].name == name)
    ensures r.None? ==> forall j | 0 <= j < |dir| :: !(dir[j].inUse && dir[j].name == name)
  {
    if dir == [] then None
    else if dir[0].inUse && dir[0].name == name then Some(0)
    else match Lookup(dir[1..], name)
      case None => None
      case Some(i) => Some(i + 1)
  }

  /** The first entry not in use. */
  ghost function FreeSlot(dir: seq<Entry>): (r: Option<nat>)
    ensures r.Some? ==> r.value < |dir| && !dir[r.value].inUse
    ensures r.Some? ==> forall j | 0 <= j < r.value :: dir[j].inUse
    ensures r.None? ==> forall j | 0 <= j < |dir| :: dir[j].inUse
  {
    if dir == [] then None
    else if !dir[0].inUse then Some(0)
    else match FreeSlot(dir[1..])
      case None => None
      case Some(i) => Some(i + 1)
  }

  /** dir_add; without a free slot the write falls at end of file and fails. */
  ghost function DirAdd(fs: Fs, name: Name, sector: nat): (Fs, bool) {
    if name == [] || |name| > 14 then (fs, false)
    else if Lookup(fs.dir, name).Some? then (fs, false)
    else match FreeSlot(fs.dir)
      case None => (fs, false)
      case Some(i) => (fs.(dir := fs.dir[i := Entry(true, name, sector)]), true)
  }

  /** dir_remove; memOk tells whether the inode can be opened. */
  ghost function DirRemove(fs: Fs, name: Name, memOk: bool): (Fs, bool) {
    match Lookup(fs.dir, name)
    case None => (fs, false)
    case Some(i) =>
      var sector := fs.dir[i].sector;
      var (fs1, isOpen) := InodeOpen(fs, sector, memOk);
      if !isOpen then (fs1, false)
      else
        var fs2 := fs1.(dir := fs1.dir[i := fs1.dir[i].(inUse := false)]);
        (InodeClose(MarkRemoved(fs2, sector), sector), true)
  }

  /** inode_remove. */
  ghost function MarkRemoved(fs: Fs, sector: nat): Fs {
    match FindOpen(fs.opens, sector)
    case None => fs.(panicked := true)
    case Some(i) => fs.(opens := fs.opens[i := fs.opens[i].(removed := true)])
  }

  // ---------------------------------------------------------------
  // filesys.c and file.c: the operations
  // ---------------------------------------------------------------

  /** Outcomes of the memory allocations and free map writes within one operation. */
  datatype Faults = Faults(rootInode: bool, rootDir: bool, headerWrite: bool, diskInode: bool,
                           dataWrite: bool, inode: bool, file: bool)

  /** Memory suffices and the free map file can be written. */
  function NoFaults(): Faults { Faults(true, true, true, true, true, true, true) }

  /** dir_open_root. */
  ghost function OpenRoot(fs: Fs, ok: Faults): (Fs, bool) {
    var (fs1, isOpen) := InodeOpen(fs, 1, ok.rootInode);
    if !isOpen then (fs1, false)
    else if !ok.rootDir then (InodeClose(fs1, 1), false)
    else (fs1, true)
  }

  /** The data sectors of the inode in a sector. */
  ghost function DataOf(disk: seq<Block>, sector: nat): set<nat> {
    if IsHeader(disk, sector) then Range(disk[sector].inode.start, BytesToSectors(disk[sector].inode.length)) else {}
  }

  /** filesys_create between opening and closing the root directory. */
  ghost function CreateIn(fs: Fs, name: Name, size: int, ok: Faults): (Fs, bool)
    requires |fs.disk| == |fs.freeMap|
  {
    var (fs1, header) := Allocate(fs, 1, ok.headerWrite);
    if header.None? then (fs1, false)
    else
      var sector := header.value;
      var (fs2, created) := InodeCreate(fs1, sector, size, ok.diskInode, ok.dataWrite);
      var (fs3, added) := if created then DirAdd(fs2, name, sector) else (fs2, false);
      if !added && sector != 0 then
        (Release(fs3.(leaked := fs3.leaked + if created then DataOf(fs3.disk, sector) else {}), sector, 1), false)
      else (fs3, added)
  }

  ghost function Create(fs: Fs, name: Name, size: int, ok: Faults): (Fs, bool)
    requires |fs.disk| == |fs.freeMap|
  {
    var (fs1, isOpen) := OpenRoot(fs, ok);
    if !isOpen || |fs1.freeMap| != |fs1.disk| then (fs1, false)
    else
      var (fs2, r) := CreateIn(fs1, name, size, ok);
      (InodeClose(fs2, 1), r)
  }

  /** file_open of a held reference as file id. */
  ghost function FileOpen(fs: Fs, sector: nat, id: nat, memOk: bool): (Fs, bool) {
    if memOk then (fs.(files := fs.files[id := File(sector, false, 0)], held := fs.held - multiset{sector}), true)
    else (InodeClose(fs, sector), false)
  }

  /** filesys_open as file id. */
  ghost function Open(fs: Fs, name: Name, id: nat, ok: Faults): (Fs, bool) {
    var (fs1, isOpen) := OpenRoot(fs, ok);
    if !isOpen then (fs1, false)
    else
      match Lookup(fs1.dir, name)
      case None => (InodeClose(fs1, 1), false)
      case Some(i) =>
        var sector := fs1.dir[i].sector;
        var (fs2, found) := InodeOpen(fs1, sector, ok.inode);
        var fs3 := InodeClose(fs2, 1);
        if found then FileOpen(fs3, sector, id, ok.file) else (fs3, false)
  }

  /** filesys_remove. */
  ghost function Remove(fs: Fs, name: Name, ok: Faults): (Fs, bool) {
    var (fs1, isOpen) := OpenRoot(fs, ok);
    if !isOpen then (fs1, false)
    else
      var (fs2, r) := DirRemove(fs1, name, ok.inode);
      (InodeClose(fs2, 1), r)
  }

  /** file_reopen of file id as id2. */
  ghost function Reopen(fs: Fs, id: nat, id2: nat, ok: Faults): (Fs, bool)
    requires id in fs.files
  {
    var sector := fs.files[id].sector;
    match FindOpen(fs.opens, sector)
    case None => (fs.(panicked := true), false)
    case Some(i) => FileOpen(InodeReopen(fs, i), sector, id2, ok.file)
  }

  /** file_deny_write and file_allow_write. */
  ghost function DenyWrite(fs: Fs, id: nat): Fs
    requires id in fs.files
  {
    var f := fs.files[id];
    if f.denyWrite then fs
    else InodeDeny(fs.(files := fs.files[id := f.(denyWrite := true)]), f.sector)
  }

  ghost function AllowWrite(fs: Fs, id: nat): Fs
    requires id in fs.files
  {
    var f := fs.files[id];
    if !f.denyWrite then fs
    else InodeAllow(fs.(files := fs.files[id := f.(denyWrite := false)]), f.sector)
  }

  /** file_close. */
  ghost function Close(fs: Fs, id: nat): Fs
    requires id in fs.files
  {
    var fs1 := AllowWrite(fs, id);
    var sector := fs1.files[id].sector;
    InodeClose(fs1.(files := fs1.files - {id}, held := fs1.held + multiset{sector}), sector)
  }

  /** file_seek. */
  ghost function Seek(fs: Fs, id: nat, pos: nat): Fs
    requires id in fs.files
  {
    fs.(files := fs.files[id := fs.files[id].(pos := pos)])
  }

  /** How many of the bytes w file_write writes at the position of file id; most is where malloc
      fails to give inode_write_at its bounce buffer, if it does. */
  ghost function WriteCount(fs: Fs, id: nat, w: seq<byte>, most: nat): (n: nat)
    requires id in fs.files
    ensures n <= |w|
  {
    match FindOpen(fs.opens, fs.files[id].sector)
    case None => 0
    case Some(i) =>
      var r := fs.opens[i];
      if r.denyWriteCnt != 0 then 0
      else InodeIO.Min(most, InodeIO.TransferCount(|w|, fs.files[id].pos, r.data.length))
  }

  /** file_write. */
  ghost function Write(fs: Fs, id: nat, w: seq<byte>, most: nat): (fs': Fs)
    requires id in fs.files
    ensures id in fs'.files
  {
    match FindOpen(fs.opens, fs.files[id].sector)
    case None => fs.(panicked := true)
    case Some(i) =>
      var n := WriteCount(fs, id, w, most);
      var p := 512 * fs.opens[i].data.start + fs.files[id].pos;
      if n == 0 then fs
      else if p + n > 512 * |fs.disk| then fs.(panicked := true)
      else Seek(fs.(disk := Overwritten(fs.disk, p, w[..n])), id, fs.files[id].pos + n)
  }
}
