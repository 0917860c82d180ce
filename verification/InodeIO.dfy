/** Reading and writing a file through its inode, sector by sector (filesys/inode.c).
    The device is specified as one flat byte array. */
module InodeIO {
  import opened Options
  import opened Bytes

  type Sector = s: seq<byte> | |s| == 512 witness seq(512, _ => 0)

  function ZeroSector(): Sector { seq(512, _ => 0) }

  /** The device as one byte array. */
  ghost function Flat(d: seq<Sector>): (f: seq<byte>)
    ensures |f| == 512 * |d|
    decreases |d|
  {
    if |d| == 0 then [] else Flat(d[..|d| - 1]) + d[|d| - 1]
  }

  /** Sector k of the flat device. */
  lemma {:induction false} FlatSector(d: seq<Sector>, k: nat)
    requires k < |d|
    ensures Flat(d)[512 * k..512 * k + 512] == d[k]
    decreases |d|
  {
    var e := d[..|d| - 1];
    if k < |d| - 1 {
      FlatSector(e, k);
      assert Flat(d)[512 * k..512 * k + 512] == Flat(e)[512 * k..512 * k + 512];
    }
  }

  /** Replacing part of one sector overwrites those bytes of the device. */
  lemma {:induction false} FlatPatch(d: seq<Sector>, k: nat, ofs: nat, w: seq<byte>)
    requires k < |d| && ofs + |w| <= 512
    ensures Flat(d[k := Patch(d[k], ofs, w)]) == Patch(Flat(d), 512 * k + ofs, w)
    decreases |d|
  {
    var e := d[..|d| - 1];
    var d' := d[k := Patch(d[k], ofs, w)];
    if k < |d| - 1 {
      FlatPatch(e, k, ofs, w);
      assert d'[..|d| - 1] == e[k := Patch(e[k], ofs, w)];
      PatchPrefix(Flat(e), d[|d| - 1], 512 * k + ofs, w);
    } else {
      assert d'[..|d| - 1] == e;
      PatchSuffix(Flat(e), d[k], ofs, w);
    }
  }

  lemma PatchPrefix(s: seq<byte>, t: seq<byte>, p: nat, w: seq<byte>)
    requires p + |w| <= |s|
    ensures Patch(s + t, p, w) == Patch(s, p, w) + t
  {
    assert (s + t)[..p] == s[..p];
    assert (s + t)[p + |w|..] == s[p + |w|..] + t;
  }

  lemma PatchSuffix(s: seq<byte>, t: seq<byte>, p: nat, w: seq<byte>)
    requires p + |w| <= |t|
    ensures Patch(s + t, |s| + p, w) == s + Patch(t, p, w)
  {
    assert (s + t)[..|s| + p] == s + t[..p];
    assert (s + t)[|s| + p + |w|..] == t[p + |w|..];
  }

  /** A block device: reads and writes whole sectors. */
  class Device {
    const sectors: array<Sector>

    constructor (size: nat)
      ensures sectors.Length == size && fresh(sectors)
    {
      sectors := new Sector[size](_ => seq(512, _ => 0));
    }

    method BlockRead(k: nat, buffer: array<byte>, at: nat)
      requires k < sectors.Length && at + 512 <= buffer.Length
      modifies buffer
      ensures buffer[..] == Patch(old(buffer[..]), at, sectors[k])
    {
      CopyIn(sectors[k], 0, buffer, at, 512);
      assert sectors[k][0..512] == sectors[k];
    }

    method BlockWrite(k: nat, block: Sector)
      requires k < sectors.Length
      modifies sectors
      ensures sectors[..] == old(sectors[..])[k := block]
    {
      sectors[k] := block;
    }
  }

  /** memcpy of n bytes into an array. */
  method CopyIn(src: seq<byte>, from: nat, dst: array<byte>, at: nat, n: nat)
    requires from + n <= |src| && at + n <= dst.Length
    modifies dst
    ensures dst[..] == Patch(old(dst[..]), at, src[from..from + n])
  {
    var i := 0;
    while i < n
      invariant 0 <= i <= n
      invariant forall j | 0 <= j < dst.Length :: dst[j] == if at <= j < at + i then src[from + (j - at)]
                else old(dst[j])
    {
      dst[at + i] := src[from + i];
      i := i + 1;
    }
  }

  function Min(a: int, b: int): (r: int)
    ensures r <= a && r <= b && (r == a || r == b)
  {
    if a < b then a else b
  }

  /** Number of bytes a transfer of size bytes at offset moves in a file of length bytes: all
      that was asked for or all up to the end of the file. */
  function TransferCount(size: int, offset: nat, length: nat): (n: nat)
    ensures n > 0 ==> offset + n <= length && n <= size
    ensures size > 0 && offset < length ==> n > 0 && (n == size || offset + n == length)
  {
    if size <= 0 || length <= offset then 0 else Min(size, length - offset)
  }

  /** n bytes from offset on are none or whole sectors. */
  ghost predicate SectorsDone(offset: nat, n: nat) {
    n > 0 ==> offset % 512 == 0 && n % 512 == 0
  }

  /** n is what a transfer without a bounce buffer moves: from a sector boundary on, as many whole
      sectors as there are; from anywhere else nothing. */
  ghost predicate WholeSectors(size: int, offset: nat, length: nat, n: nat) {
    && SectorsDone(offset, n)
    && (offset % 512 == 0 && n + 512 <= size ==> length < offset + n + 512)
  }

  lemma NoSectorsYet(offset: nat)
    ensures SectorsDone(offset, 0)
  {
  }

  lemma SectorDone(offset: nat, done: nat)
    requires SectorsDone(offset, done) && (offset + done) % 512 == 0
    ensures SectorsDone(offset, done + 512)
  {
  }

  /** Where the next chunk is not a whole sector, or there is none, the whole sectors are done. */
  lemma SectorsAreDone(size: int, offset: nat, length: nat, done: nat, chunk: int)
    requires SectorsDone(offset, done)
    requires chunk <= 0 ==> size <= done || length <= offset + done
    requires (offset + done) % 512 + chunk <= 512
    requires chunk > 0 ==>
               (offset + done) % 512 + chunk == 512 || chunk == size - done || offset + done + chunk == length
    requires !((offset + done) % 512 == 0 && chunk == 512)
    ensures WholeSectors(size, offset, length, done)
  {
  }

  /** Number of data sectors of a file of length bytes. */
  function SectorCount(length: nat): nat { (length + 511) / 512 }

  class Inode {
    var denyWriteCnt: int
    var start: nat
    var length: nat

    constructor (start: nat, length: nat)
      ensures this.start == start && this.length == length && denyWriteCnt == 0
    {
      this.start, this.length := start, length;
      denyWriteCnt := 0;
    }

    /** The data sectors lie on the device. */
    ghost predicate OnDevice(dev: Device)
      reads this
    {
      start + SectorCount(length) <= dev.sectors.Length
    }

    /** The file: length bytes of the device, from the start sector on. */
    ghost function Content(dev: Device): (c: seq<byte>)
      requires OnDevice(dev)
      reads this, dev.sectors
      ensures |c| == length
    {
      Flat(dev.sectors[..])[512 * start..512 * start + length]
    }

    /** None stands for sector -1. */
    function ByteToSector(pos: nat): (r: Option<nat>)
      reads this
      ensures r.Some? <==> pos < length
      ensures r.Some? ==> start <= r.value < start + SectorCount(length)
      ensures r.Some? ==> 512 * r.value + pos % 512 == 512 * start + pos
    {
      if pos < length then Some(start + pos / 512) else None
    }

    /** The chunk moved by one round of either transfer loop. */
    function ChunkSize(size: int, offset: nat): (n: int)
      reads this
      ensures n > 0 <==> size > 0 && offset < length
      ensures n > 0 ==> offset % 512 + n <= 512 && n <= size && offset + n <= length
      ensures n > 0 ==> offset % 512 + n == 512 || n == size || offset + n == length
    {
      var sectorOfs := offset % 512;
      var inodeLeft := length - offset;
      var sectorLeft := 512 - sectorOfs;
      var minLeft := if inodeLeft < sectorLeft then inodeLeft else sectorLeft;
      if size < minLeft then size else minLeft
    }

    /** inode_read_at: reads all that was asked for or all up to the end of the file. bounceOk tells
        whether malloc yields the bounce buffer; without it only whole sectors are read. */
    method ReadAt(dev: Device, buffer: array<byte>, size0: int, offset0: nat, bounceOk: bool) returns (bytesRead: nat)
      requires OnDevice(dev) && size0 <= buffer.Length
      modifies buffer
      ensures bytesRead <= TransferCount(size0, offset0, length) <= buffer.Length
      ensures bounceOk ==> bytesRead == TransferCount(size0, offset0, length)
      ensures size0 <= 0 || length <= offset0 ==> bytesRead == 0
      ensures bytesRead > 0 ==> bytesRead <= size0 && offset0 + bytesRead <= length
      ensures bounceOk && size0 > 0 && offset0 < length ==>
                bytesRead > 0 && (bytesRead == size0 || offset0 + bytesRead == length)
      ensures !bounceOk ==> WholeSectors(size0, offset0, length, bytesRead)
      ensures buffer[..] == Patch(old(buffer[..]), 0, Stretch(Content(dev), offset0, bytesRead))
    {
      hide Patch, Stretch, Content, OnDevice, Flat, ChunkSize, SectorCount, SectorsDone, WholeSectors, TransferCount;
      NoSectorsYet(offset0);
      ghost var c := Content(dev);
      var size, offset := size0, offset0;
      bytesRead := 0;
      PatchNothing(buffer[..], 0, Stretch(c, offset0, 0));
      while size > 0
        invariant size == size0 - bytesRead && offset == offset0 + bytesRead
        invariant bytesRead <= TransferCount(size0, offset0, length) <= buffer.Length
        invariant !bounceOk ==> SectorsDone(offset0, bytesRead)
        invariant buffer[..] == Patch(old(buffer[..]), 0, Stretch(c, offset0, bytesRead))
        decreases size
      {
        var sectorIdx := ByteToSector(offset);
        var sectorOfs := offset % 512;
        var chunkSize := ChunkSize(size, offset);
        if chunkSize <= 0 {
          if !bounceOk { SectorsAreDone(size0, offset0, length, bytesRead, chunkSize); }
          break;
        }
        ReadChunk(dev, sectorIdx.value, offset, chunkSize);
        ReadProgress(old(buffer[..]), c, offset0, bytesRead, chunkSize);
        if sectorOfs == 0 && chunkSize == 512 {
          dev.BlockRead(sectorIdx.value, buffer, bytesRead);
        } else {
          if !bounceOk {
            SectorsAreDone(size0, offset0, length, bytesRead, chunkSize);
            break;
          }
          var bounce := dev.sectors[sectorIdx.value];
          CopyIn(bounce, sectorOfs, buffer, bytesRead, chunkSize);
        }
        if !bounceOk { SectorDone(offset0, bytesRead); }
        size := size - chunkSize;
        offset := offset + chunkSize;
        bytesRead := bytesRead + chunkSize;
      }
      if !bounceOk && size <= 0 { SectorsAreDone(size0, offset0, length, bytesRead, 0); }
    }

    /** inode_write_at: nothing when writes are denied, else all that was asked for or all up to the
        end of the file; the whole device but the transferred bytes of this file is as before. */
    method WriteAt(dev: Device, buffer: array<byte>, size0: int, offset0: nat,
                   bounceOk: bool) returns (bytesWritten: nat)
      requires OnDevice(dev) && size0 <= buffer.Length
      modifies dev.sectors
      ensures bytesWritten <= TransferCount(size0, offset0, length) <= buffer.Length
      ensures denyWriteCnt != 0 ==> bytesWritten == 0
      ensures bounceOk && denyWriteCnt == 0 ==> bytesWritten == TransferCount(size0, offset0, length)
      ensures size0 <= 0 || length <= offset0 ==> bytesWritten == 0
      ensures bytesWritten > 0 ==> bytesWritten <= size0 && offset0 + bytesWritten <= length
      ensures bounceOk && denyWriteCnt == 0 && size0 > 0 && offset0 < length ==>
                bytesWritten > 0 && (bytesWritten == size0 || offset0 + bytesWritten == length)
      ensures !bounceOk && denyWriteCnt == 0 ==> WholeSectors(size0, offset0, length, bytesWritten)
      ensures bytesWritten == 0 ==> dev.sectors[..] == old(dev.sectors[..])
      ensures bytesWritten > 0 ==>
                    Flat(dev.sectors[..])
                    == Patch(old(Flat(dev.sectors[..])), 512 * start + offset0, buffer[..bytesWritten])
    {
      hide Patch, Content, Flat, ChunkSize, TransferCount, SectorsDone, WholeSectors, SectorCount, Overlaid;
      NoSectorsYet(offset0);
      var size, offset := size0, offset0;
      bytesWritten := 0;
      if denyWriteCnt != 0 {
        return 0;
      }
      ghost var p, was, b := 512 * start + offset0, dev.sectors[..], buffer[..];
      NotOverlaid(was, p, b[..0]);
      while size > 0
        invariant size == size0 - bytesWritten && offset == offset0 + bytesWritten
        invariant bytesWritten <= TransferCount(size0, offset0, length) <= buffer.Length
        invariant !bounceOk ==> SectorsDone(offset0, bytesWritten)
        invariant Overlaid(was, dev.sectors[..], p, b[..bytesWritten])
        decreases size
      {
        var sectorIdx := ByteToSector(offset);
        var sectorOfs := offset % 512;
        var sectorLeft := 512 - sectorOfs;
        var chunkSize := ChunkSize(size, offset);
        if chunkSize <= 0 {
          if !bounceOk { SectorsAreDone(size0, offset0, length, bytesWritten, chunkSize); }
          break;
        }
        ghost var d := dev.sectors[..];
        ghost var chunk := b[bytesWritten..bytesWritten + chunkSize];
        if sectorOfs == 0 && chunkSize == 512 {
          var block := buffer[bytesWritten..bytesWritten + 512];
          PatchWhole(d[sectorIdx.value], block);
          dev.BlockWrite(sectorIdx.value, block);
        } else {
          if !bounceOk {
            SectorsAreDone(size0, offset0, length, bytesWritten, chunkSize);
            break;
          }
          var bounce := new byte[512](_ => 0);
          if sectorOfs > 0 || chunkSize < sectorLeft {
            PatchWhole(bounce[..], d[sectorIdx.value]);
            dev.BlockRead(sectorIdx.value, bounce, 0);
          } else {
            // A whole sector is written above without a bounce buffer.
            assert false;
          }
          CopyIn(buffer[..], bytesWritten, bounce, sectorOfs, chunkSize);
          dev.BlockWrite(sectorIdx.value, bounce[..]);
        }
        WriteProgress(was, d, sectorIdx.value, sectorOfs, p, b[..bytesWritten], chunk);
        assert b[..bytesWritten] + chunk == b[..bytesWritten + chunkSize];
        if !bounceOk { SectorDone(offset0, bytesWritten); }
        size := size - chunkSize;
        offset := offset + chunkSize;
        bytesWritten := bytesWritten + chunkSize;
      }
      if !bounceOk && size <= 0 { SectorsAreDone(size0, offset0, length, bytesWritten, 0); }
      OverlaidIs(was, dev.sectors[..], p, b[..bytesWritten]);
      assert b[..bytesWritten] == buffer[..bytesWritten];
    }

    /** The bytes of one sector that a chunk covers are that stretch of the file. */
    lemma ReadChunk(dev: Device, k: nat, offset: nat, n: nat)
      requires OnDevice(dev) && offset < length && k == start + offset / 512
      requires offset % 512 + n <= 512 && offset + n <= length
      ensures k < dev.sectors.Length
      ensures dev.sectors[k][offset % 512..offset % 512 + n] == Stretch(Content(dev), offset, n)
      ensures offset % 512 == 0 && n == 512 ==> dev.sectors[k] == Stretch(Content(dev), offset, n)
    {
      var f := Flat(dev.sectors[..]);
      FlatSector(dev.sectors[..], k);
      var p := 512 * start + offset;
      assert p == 512 * k + offset % 512;
      SliceOfSlice(f, 512 * k, 512 * k + 512, offset % 512, offset % 512 + n);
      SliceOfSlice(f, 512 * start, 512 * start + length, offset, offset + n);
    }
  }

  /** The device d is was with w written over its bytes from p on. */
  ghost predicate Overlaid(was: seq<Sector>, d: seq<Sector>, p: nat, w: seq<byte>) {
    && (|w| == 0 ==> d == was)
    && (|w| > 0 ==> p + |w| <= 512 * |was| && Flat(d) == Patch(Flat(was), p, w))
  }

  lemma NotOverlaid(was: seq<Sector>, p: nat, w: seq<byte>)
    requires w == []
    ensures Overlaid(was, was, p, w)
  {
  }

  lemma OverlaidIs(was: seq<Sector>, d: seq<Sector>, p: nat, w: seq<byte>)
    requires Overlaid(was, d, p, w)
    ensures |w| == 0 ==> d == was
    ensures |w| > 0 ==> p + |w| <= 512 * |was| && Flat(d) == Patch(Flat(was), p, w)
  {
  }

  /** One more chunk written into its sector extends the overwritten stretch of the device. */
  lemma WriteProgress(was: seq<Sector>, d: seq<Sector>, k: nat, ofs: nat, p: nat, w: seq<byte>, chunk: seq<byte>)
    requires |was| == |d| && k < |d| && ofs + |chunk| <= 512 && |chunk| > 0 && p + |w| == 512 * k + ofs
    requires Overlaid(was, d, p, w)
    ensures Overlaid(was, d[k := Patch(d[k], ofs, chunk)], p, w + chunk)
  {
    hide Flat, Patch;
    FlatPatch(d, k, ofs, chunk);
    if |w| == 0 {
      PatchNothing(Flat(was), p, w);
    }
    PatchAppend(Flat(was), p, w, chunk);
  }

  /** n bytes of c from offset on, or none when c has fewer. */
  ghost function Stretch(c: seq<byte>, offset: nat, n: nat): (r: seq<byte>)
    ensures |r| == if offset + n <= |c| then n else 0
  {
    if offset + n <= |c| then c[offset..offset + n] else []
  }

  lemma ReadProgress(was: seq<byte>, c: seq<byte>, offset0: nat, done: nat, n: nat)
    requires offset0 + done + n <= |c| && done + n <= |was|
    ensures Patch(Patch(was, 0, Stretch(c, offset0, done)), done, Stretch(c, offset0 + done, n))
         == Patch(was, 0, Stretch(c, offset0, done + n))
  {
    PatchAppend(was, 0, c[offset0..offset0 + done], c[offset0 + done..offset0 + done + n]);
    assert c[offset0..offset0 + done + n] == c[offset0..offset0 + done] + c[offset0 + done..offset0 + done + n];
  }

  /** An open file: an inode and a position in it (filesys/file.c). */
  class File {
    const inode: Inode
    var pos: nat

    constructor (inode: Inode)
      ensures this.inode == inode && pos == 0
    {
      this.inode, pos := inode, 0;
    }

    method Seek(newPos: nat)
      modifies this
      ensures pos == newPos
    {
      pos := newPos;
    }

    /** Reads the bytes from the position on, as many as asked for or up to the end of the file, and
        moves past them. */
    method Read(dev: Device, buffer: array<byte>, size: int, bounceOk: bool) returns (n: nat)
      requires inode.OnDevice(dev) && size <= buffer.Length
      modifies this, buffer
      ensures pos == old(pos) + n
      ensures n <= TransferCount(size, old(pos), inode.length)
      ensures bounceOk ==> n == TransferCount(size, old(pos), inode.length)
      ensures size <= 0 || inode.length <= old(pos) ==> n == 0
      ensures n > 0 ==> n <= size && old(pos) + n <= inode.length
      ensures bounceOk && size > 0 && old(pos) < inode.length ==>
                n > 0 && (n == size || old(pos) + n == inode.length)
      ensures buffer[..] == Patch(old(buffer[..]), 0, Stretch(inode.Content(dev), old(pos), n))
    {
      n := inode.ReadAt(dev, buffer, size, pos, bounceOk);
      pos := pos + n;
    }

    /** Writes from the position on, as many bytes as given or up to the end of the file, and moves
        past them; nothing while writes are denied. */
    method Write(dev: Device, buffer: array<byte>, size: int, bounceOk: bool) returns (n: nat)
      requires inode.OnDevice(dev) && size <= buffer.Length
      modifies this, dev.sectors
      ensures pos == old(pos) + n
      ensures n <= TransferCount(size, old(pos), inode.length)
      ensures inode.denyWriteCnt != 0 ==> n == 0
      ensures bounceOk && inode.denyWriteCnt == 0 ==> n == TransferCount(size, old(pos), inode.length)
      ensures size <= 0 || inode.length <= old(pos) ==> n == 0
      ensures n > 0 ==> n <= size && old(pos) + n <= inode.length
      ensures bounceOk && inode.denyWriteCnt == 0 && size > 0 && old(pos) < inode.length ==>
                n > 0 && (n == size || old(pos) + n == inode.length)
      ensures n == 0 ==> dev.sectors[..] == old(dev.sectors[..])
      ensures n > 0 ==> inode.Content(dev) == Patch(old(inode.Content(dev)), old(pos), buffer[..n])
      ensures n > 0 ==> Flat(dev.sectors[..]) == Patch(old(Flat(dev.sectors[..])), 512 * inode.start + old(pos),
              buffer[..n])
    {
      hide Patch, Flat;
      n := inode.WriteAt(dev, buffer, size, pos, bounceOk);
      if n > 0 {
        WriteIsPatch(old(Flat(dev.sectors[..])), inode.start, inode.length, pos, buffer[..n]);
      }
      pos := pos + n;
    }
  }

  // ---------------------------------------------------------------
  // Files as byte arrays
  // ---------------------------------------------------------------

  /** A file's bytes on a flat device. */
  ghost function FileBytes(f: seq<byte>, start: nat, length: nat): (c: seq<byte>)
    requires 512 * start + length <= |f|
    ensures |c| == length
  {
    f[512 * start..512 * start + length]
  }

  /** Writing w at offset, as the device sees it, is overwriting the file's byte array: a
      later read of the same place returns w, and every other byte of the file is kept. */
  lemma WriteIsPatch(f: seq<byte>, start: nat, length: nat, offset: nat, w: seq<byte>)
    requires 512 * start + length <= |f| && offset + |w| <= length
    ensures FileBytes(Patch(f, 512 * start + offset, w), start, length) == Patch(FileBytes(f, start, length), offset, w)
    ensures FileBytes(Patch(f, 512 * start + offset, w), start, length)[offset..offset + |w|] == w
  {
    PatchInside(f, 512 * start + offset, w, 512 * start, 512 * start + length);
    PatchReadBack(FileBytes(f, start, length), offset, w);
  }
}
