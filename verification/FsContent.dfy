/** The contents of files: byte arrays on the device, each changed only through its own open files. */
module FsContent {
  import opened Options
  import opened Bytes
  import opened FsModel
  import opened FsOwnership
  import opened FsInvariant
  import opened FsRuns
  import opened FsTheorems
  import opened InodeIO

  /** The bytes of the file whose inode is in sector s. */
  ghost function Content(disk: seq<Block>, s: nat): (c: seq<byte>)
    requires Placed(disk, s) && |disk| <= 0x8000_0000
    ensures |c| == disk[s].inode.length
  {
    OnDisk(disk, s);
    FileBytes(FlatDisk(disk), disk[s].inode.start, disk[s].inode.length)
  }

  lemma OnDisk(disk: seq<Block>, s: nat)
    requires Placed(disk, s) && |disk| <= 0x8000_0000
    ensures s < |disk| && disk[s].Header?
    ensures var d := disk[s].inode;
            && BytesToSectors(d.length) == SectorCount(d.length) && d.start + SectorCount(d.length) <= |disk|
            && 512 * d.start + d.length <= 512 * |disk|
  {
    SectorsOfAllocated(disk[s].inode.length);
  }

  lemma FlatByte(d: seq<Sector>, i: nat)
    requires i < 512 * |d|
    ensures Flat(d)[i] == d[i / 512][i % 512]
  {
    hide Flat;
    FlatSector(d, i / 512);
    assert i == 512 * (i / 512) + i % 512;
    assert Flat(d)[512 * (i / 512)..512 * (i / 512) + 512][i % 512] == Flat(d)[i];
  }

  /** A byte array that reads sector by sector as d is d's. */
  lemma {:induction false} FlatOfSlices(d: seq<Sector>, f: seq<byte>)
    requires |f| == 512 * |d|
    requires forall i | 0 <= i < |d| :: d[i] == f[512 * i..512 * i + 512]
    ensures Flat(d) == f
    decreases |d|
  {
    if |d| > 0 {
      var n := |d| - 1;
      var e, g := d[..n], f[..512 * n];
      forall i | 0 <= i < n
        ensures e[i] == g[512 * i..512 * i + 512]
      {
        assert e[i] == d[i];
      }
      FlatOfSlices(e, g);
      assert f == g + f[512 * n..512 * n + 512];
    }
  }

  lemma FlatInjective(d: seq<Sector>, e: seq<Sector>)
    requires |d| == |e| && Flat(d) == Flat(e)
    ensures d == e
  {
    hide Flat;
    forall i | 0 <= i < |d|
      ensures d[i] == e[i]
    {
      FlatSector(d, i);
      FlatSector(e, i);
    }
  }

  lemma FlatOverwritten(disk: seq<Block>, p: nat, w: seq<byte>)
    requires p + |w| <= 512 * |disk|
    ensures FlatDisk(Overwritten(disk, p, w)) == Patch(FlatDisk(disk), p, w)
  {
    hide Flat, Patch;
    var f := Patch(FlatDisk(disk), p, w);
    var d := Sectors(Overwritten(disk, p, w));
    forall i | 0 <= i < |d|
      ensures d[i] == f[512 * i..512 * i + 512]
    {
      if !(p < 512 * i + 512 && 512 * i < p + |w|) {
        FlatSector(Sectors(disk), i);
        PatchElsewhere(FlatDisk(disk), p, w, 512 * i, 512 * i + 512);
      }
    }
    FlatOfSlices(d, f);
  }

  lemma PlacedKept(disk: seq<Block>, disk': seq<Block>, s: nat)
    requires Placed(disk, s) && |disk'| == |disk| && disk'[s] == disk[s]
    ensures Placed(disk', s)
  {
  }

  /** A file whose sectors stay keeps its bytes. */
  lemma ContentKept(disk: seq<Block>, disk': seq<Block>, s: nat)
    requires Placed(disk, s) && |disk| <= 0x8000_0000 && KeepsCovered(disk, disk', {s})
    ensures Placed(disk', s) && Content(disk', s) == Content(disk, s)
  {
    hide BytesToSectors, Placed;
    assert Covers(disk, s, s);
    OnDisk(disk, s);
    PlacedKept(disk, disk', s);
    var d := disk[s].inode;
    var a, b := FlatDisk(disk), FlatDisk(disk');
    forall i | 512 * d.start <= i < 512 * d.start + d.length
      ensures a[i] == b[i]
    {
      FlatByte(Sectors(disk), i);
      FlatByte(Sectors(disk'), i);
      SectorOfByte(d.start, d.length, i);
      assert Covers(disk, s, i / 512) by { InOwnData(disk, s, i / 512); }
    }
    SlicesAgree(a, b, 512 * d.start, 512 * d.start + d.length);
  }

  lemma SectorOfByte(start: nat, length: nat, i: nat)
    requires 512 * start <= i < 512 * start + length
    ensures start <= i / 512 < start + SectorCount(length)
  {
  }

  lemma InOwnData(disk: seq<Block>, s: nat, x: nat)
    requires Placed(disk, s) && |disk| <= 0x8000_0000
    requires disk[s].inode.start <= x < disk[s].inode.start + SectorCount(disk[s].inode.length)
    ensures InData(disk, s, x)
  {
    OnDisk(disk, s);
  }

  /** A write into a file overwrites its bytes. */
  lemma ContentWritten(disk: seq<Block>, s: nat, pos: nat, w: seq<byte>)
    requires Placed(disk, s) && |disk| <= 0x8000_0000 && pos + |w| <= disk[s].inode.length
    ensures 512 * disk[s].inode.start + disk[s].inode.length <= 512 * |disk|
    ensures var disk' := Overwritten(disk, 512 * disk[s].inode.start + pos, w);
            Placed(disk', s) && disk'[s] == disk[s] && Content(disk', s) == Patch(Content(disk, s), pos, w)
  {
    hide BytesToSectors, Placed, Overwritten, Patch;
    OnDisk(disk, s);
    var d := disk[s].inode;
    WriteInData(disk, s, pos, w);
    HeaderStays(disk, Overwritten(disk, 512 * d.start + pos, w), s);
    PlacedKept(disk, Overwritten(disk, 512 * d.start + pos, w), s);
    FlatOverwritten(disk, 512 * d.start + pos, w);
    WriteIsPatch(FlatDisk(disk), d.start, d.length, pos, w);
  }

  lemma HeaderStays(disk: seq<Block>, disk': seq<Block>, s: nat)
    requires Placed(disk, s) && DataChange(disk, disk', s)
    ensures s < |disk| && disk'[s] == disk[s]
  {
  }

  /** What file_write does to its own file. */
  lemma WriteOwn(fs: Fs, id: nat, w: seq<byte>, most: nat)
    requires Inv(fs) && id in fs.files
    ensures var fs', s, n := Write(fs, id, w, most), fs.files[id].sector, WriteCount(fs, id, w, most);
            && Placed(fs.disk, s) && Placed(fs'.disk, s) && |fs'.disk| == |fs.disk| <= 0x8000_0000
            && n == (if Denying(fs.files, s) != {} then 0
                     else Min(most, TransferCount(|w|, fs.files[id].pos, fs.disk[s].inode.length)))
            && Content(fs'.disk, s) == Put(Content(fs.disk, s), fs.files[id].pos, w[..n])
  {
    hide Inv, Live, FindOpen, Denying, BytesToSectors, Overwritten, Placed, Patch, Content;
    FileEntry(fs, id);
    var s, n := fs.files[id].sector, WriteCount(fs, id, w, most);
    LiveArePlaced(fs, s);
    DenialCount(fs, s);
    if n > 0 {
      ContentWritten(fs.disk, s, fs.files[id].pos, w[..n]);
    } else {
      PutNothing(Content(fs.disk, s), fs.files[id].pos, w[..n]);
    }
  }

  /** c with w at pos, if it goes in. */
  ghost function Put(c: seq<byte>, pos: nat, w: seq<byte>): (r: seq<byte>)
    ensures |r| == |c|
  {
    if pos + |w| <= |c| then Patch(c, pos, w) else c
  }

  lemma PutNothing(c: seq<byte>, pos: nat, w: seq<byte>)
    requires w == []
    ensures Put(c, pos, w) == c
  {
    if pos <= |c| { PatchNothing(c, pos, w); }
  }

  /** What it does to others. */
  lemma WriteOther(fs: Fs, id: nat, w: seq<byte>, most: nat, t: nat)
    requires Inv(fs) && id in fs.files && t in Live(fs) && t != fs.files[id].sector
    ensures var fs' := Write(fs, id, w, most);
            && Placed(fs.disk, t) && Placed(fs'.disk, t) && |fs'.disk| == |fs.disk| <= 0x8000_0000
            && Content(fs'.disk, t) == Content(fs.disk, t)
  {
    hide Inv, Live, Placed, Content, Write, WriteCount, Covers;
    WriteKeeps(fs, id, w, most);
    var fs' := Write(fs, id, w, most);
    LiveArePlaced(fs, t);
    OneCovered(fs.disk, fs'.disk, Live(fs) - {fs.files[id].sector}, t);
    ContentKept(fs.disk, fs'.disk, t);
  }

  /** file_write through open file id: its own file's bytes are overwritten at the position, as many
      as fit the file unless malloc fails, none when an opener denies writes; every other live file
      keeps its bytes. */
  lemma WriteContents(fs: Fs, id: nat, w: seq<byte>, most: nat)
    requires Inv(fs) && id in fs.files
    ensures var fs', s, n := Write(fs, id, w, most), fs.files[id].sector, WriteCount(fs, id, w, most);
            && Inv(fs') && Live(fs') == Live(fs) && |fs'.disk| == |fs.disk| <= 0x8000_0000
            && Placed(fs.disk, s) && Placed(fs'.disk, s)
            && (n > 0 ==> n <= |w| && fs.files[id].pos + n <= |Content(fs.disk, s)|)
            && (Denying(fs.files, s) == {} && |w| <= most && w != [] && fs.files[id].pos < |Content(fs.disk, s)| ==>
                n > 0 && (n == |w| || fs.files[id].pos + n == |Content(fs.disk, s)|))
            && (Denying(fs.files, s) != {} ==> n == 0)
            && Content(fs'.disk, s) == Put(Content(fs.disk, s), fs.files[id].pos, w[..n])
            && forall t | t in Live(fs) && t != s ::
                 Placed(fs.disk, t) && Placed(fs'.disk, t) && Content(fs'.disk, t) == Content(fs.disk, t)
  {
    hide Inv, Live, Denying, Placed, Put, Content, Write, WriteCount;
    WriteKeeps(fs, id, w, most);
    WriteOwn(fs, id, w, most);
    var fs' := Write(fs, id, w, most);
    forall t | t in Live(fs) && t != fs.files[id].sector
      ensures Placed(fs.disk, t) && Placed(fs'.disk, t) && Content(fs'.disk, t) == Content(fs.disk, t)
    {
      WriteOther(fs, id, w, most, t);
    }
  }

  lemma DenialCount(fs: Fs, s: nat)
    ensures |Denying(fs.files, s)| == 0 <==> Denying(fs.files, s) == {}
  {
  }

  lemma OneCovered(disk: seq<Block>, disk': seq<Block>, live: set<nat>, t: nat)
    requires KeepsCovered(disk, disk', live) && t in live
    ensures KeepsCovered(disk, disk', {t})
  {
  }

  /** After any run from a fresh format, the same: files never run into each other. */
  lemma FilesKeepApart(size: nat, ops: seq<Op>, id: nat, w: seq<byte>, most: nat, t: nat)
    requires 2 <= size <= 0x8000_0000 && Format(size).1 && LegalRun(Format(size).0, ops)
    requires var fs := Run(Format(size).0, ops); id in fs.files && t in Live(fs)
    ensures var fs := Run(Format(size).0, ops);
            var fs', s, n := Write(fs, id, w, most), fs.files[id].sector, WriteCount(fs, id, w, most);
            && Placed(fs.disk, t) && Placed(fs'.disk, t) && |fs'.disk| == |fs.disk| <= 0x8000_0000
            && Content(fs'.disk, t) ==
                 if t == s then Put(Content(fs.disk, t), fs.files[id].pos, w[..n]) else Content(fs.disk, t)
  {
    hide *;
    RunsAreSound(size, ops);
    var fs := Run(Format(size).0, ops);
    if t == fs.files[id].sector { WriteContents(fs, id, w, most); } else { WriteOther(fs, id, w, most, t); }
  }

  lemma RunsAreSound(size: nat, ops: seq<Op>)
    requires 2 <= size <= 0x8000_0000 && Format(size).1 && LegalRun(Format(size).0, ops)
    ensures Inv(Run(Format(size).0, ops)) && Quiescent(Run(Format(size).0, ops))
  {
    hide *;
    FormatEstablishes(size);
    RunKeeps(Format(size).0, ops);
  }
}
