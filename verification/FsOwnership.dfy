/** Who owns which sector: the header and data sectors of live inodes are disjoint and in
    use, and nothing else is in use but leaked sectors. */
module FsOwnership {
  import opened Bitmap
  import opened FsModel

  /** Sector x is the header of inode s or one of its data sectors. */
  ghost predicate Covers(disk: seq<Block>, s: nat, x: nat) {
    x == s || InData(disk, s, x)
  }

  ghost predicate InData(disk: seq<Block>, s: nat, x: nat) {
    && IsHeader(disk, s)
    && disk[s].inode.start <= x < disk[s].inode.start + BytesToSectors(disk[s].inode.length)
  }

  /** Sector s holds an inode whose data sectors lie on the device, apart from s. */
  ghost predicate Placed(disk: seq<Block>, s: nat) {
    && IsHeader(disk, s)
    && disk[s].inode.length < 0x8000_0000
    && disk[s].inode.start + BytesToSectors(disk[s].inode.length) <= |disk|
    && !InData(disk, s, s)
  }

  ghost predicate Owned(disk: seq<Block>, live: set<nat>, x: nat) {
    exists s :: s in live && Covers(disk, s, x)
  }

  ghost predicate AllPlaced(disk: seq<Block>, live: set<nat>) {
    forall s | s in live :: Placed(disk, s)
  }

  ghost predicate Disjoint(disk: seq<Block>, live: set<nat>) {
    forall s, t, x | s in live && t in live && Covers(disk, s, x) && Covers(disk, t, x) :: s == t
  }

  ghost predicate LeakedApart(disk: seq<Block>, live: set<nat>, leaked: set<nat>) {
    forall s, x | s in live && x in leaked :: !Covers(disk, s, x)
  }

  ghost predicate UsedExactly(freeMap: seq<bool>, disk: seq<Block>, live: set<nat>, leaked: set<nat>) {
    && (forall x | x in leaked :: x < |freeMap|)
    && (forall x | 0 <= x < |freeMap| :: freeMap[x] <==> x in leaked || Owned(disk, live, x))
  }

  ghost predicate Own(freeMap: seq<bool>, disk: seq<Block>, live: set<nat>, leaked: set<nat>) {
    && |freeMap| == |disk| <= 0x8000_0000
    && AllPlaced(disk, live)
    && Disjoint(disk, live)
    && LeakedApart(disk, live, leaked)
    && UsedExactly(freeMap, disk, live, leaked)
  }

  /** A sector covered by a live inode is on the device and in use. */
  lemma CoveredUsed(freeMap: seq<bool>, disk: seq<Block>, live: set<nat>, leaked: set<nat>, s: nat, x: nat)
    requires Own(freeMap, disk, live, leaked) && s in live && Covers(disk, s, x)
    ensures x < |freeMap| && freeMap[x]
  {
    assert Placed(disk, s);
    assert Owned(disk, live, x);
  }

  /** Every sector of a live inode is in use, so free_map_release's assertion holds. */
  lemma LiveSectorsUsed(freeMap: seq<bool>, disk: seq<Block>, live: set<nat>, leaked: set<nat>, s: nat)
    requires Own(freeMap, disk, live, leaked) && s in live
    ensures IsHeader(disk, s)
    ensures RunOf(freeMap, s, 1, true)
    ensures var d := disk[s].inode; RunOf(SetRun(freeMap, s, 1, false), d.start, BytesToSectors(d.length), true)
  {
    assert Placed(disk, s);
    CoveredUsed(freeMap, disk, live, leaked, s, s);
    var d := disk[s].inode;
    forall x | d.start <= x < d.start + BytesToSectors(d.length)
      ensures x < |freeMap| && SetRun(freeMap, s, 1, false)[x]
    {
      assert InData(disk, s, x);
      CoveredUsed(freeMap, disk, live, leaked, s, x);
    }
  }

  /** The free map with every sector of inode s cleared. */
  ghost function Cleared(freeMap: seq<bool>, disk: seq<Block>, s: nat): (r: seq<bool>)
    requires Placed(disk, s) && |freeMap| == |disk|
    ensures |r| == |freeMap|
    ensures forall x | 0 <= x < |r| :: r[x] == (freeMap[x] && !Covers(disk, s, x))
  {
    var d := disk[s].inode;
    SetRun(SetRun(freeMap, s, 1, false), d.start, BytesToSectors(d.length), false)
  }

  /** Releasing all sectors of a live inode leaves exactly the others owned. */
  lemma OwnDrop(freeMap: seq<bool>, disk: seq<Block>, live: set<nat>, leaked: set<nat>, s: nat)
    requires Own(freeMap, disk, live, leaked) && s in live
    ensures Placed(disk, s)
    ensures Own(Cleared(freeMap, disk, s), disk, live - {s}, leaked)
  {
    assert Placed(disk, s);
    var after := Cleared(freeMap, disk, s);
    forall x | 0 <= x < |after|
      ensures after[x] <==> x in leaked || Owned(disk, live - {s}, x)
    {
      if Owned(disk, live, x) && !Covers(disk, s, x) {
        var t :| t in live && Covers(disk, t, x);
        assert t in live - {s} && Covers(disk, t, x);
      }
      if Owned(disk, live - {s}, x) {
        var t :| t in live - {s} && Covers(disk, t, x);
        assert t in live && Covers(disk, t, x);
      }
    }
  }

  /** Releasing only the header of a live inode leaks its data sectors. */
  lemma OwnLeak(freeMap: seq<bool>, disk: seq<Block>, live: set<nat>, leaked: set<nat>, s: nat)
    requires Own(freeMap, disk, live, leaked) && s in live
    ensures s < |freeMap|
    ensures Own(SetRun(freeMap, s, 1, false), disk, live - {s}, leaked + DataOf(disk, s))
  {
    assert Placed(disk, s);
    var after, data := SetRun(freeMap, s, 1, false), DataOf(disk, s);
    forall x | 0 <= x < |after|
      ensures after[x] <==> x in leaked + data || Owned(disk, live - {s}, x)
    {
      if Owned(disk, live, x) && !Covers(disk, s, x) {
        var t :| t in live && Covers(disk, t, x);
        assert t in live - {s} && Covers(disk, t, x);
      }
      if Owned(disk, live - {s}, x) {
        var t :| t in live - {s} && Covers(disk, t, x);
        assert t in live && Covers(disk, t, x);
      }
      assert x in data <==> InData(disk, s, x);
      if x in data { CoveredUsed(freeMap, disk, live, leaked, s, x); }
      if x == s { CoveredUsed(freeMap, disk, live, leaked, s, x); }
    }
    forall t, x | t in live - {s} && x in leaked + data
      ensures !Covers(disk, t, x)
    {
      if x in data { assert Covers(disk, s, x); }
    }
    forall x | x in leaked + data
      ensures x < |after|
    {
      if x in data { CoveredUsed(freeMap, disk, live, leaked, s, x); }
    }
  }

  /** The device after inode_create has written a header and zeroed its data sectors. */
  ghost function Created(disk: seq<Block>, s: nat, d: DiskInode): (r: seq<Block>)
    requires s < |disk| && d.start + BytesToSectors(d.length) <= |disk|
    ensures |r| == |disk|
  {
    ZeroRun(disk[s := Header(d)], d.start, BytesToSectors(d.length))
  }

  /** Every sector of a live inode holds the same in disk' as in disk. */
  ghost predicate KeepsCovered(disk: seq<Block>, disk': seq<Block>, live: set<nat>) {
    && |disk| == |disk'|
    && forall t, x: nat | t in live && Covers(disk, t, x) :: x < |disk| && disk'[x] == disk[x]
  }

  /** The free map after the sectors of a new inode have been taken. */
  ghost function Taken(freeMap: seq<bool>, s: nat, d: DiskInode): (r: seq<bool>)
    requires s < |freeMap| && d.start + BytesToSectors(d.length) <= |freeMap|
    ensures |r| == |freeMap|
  {
    SetRun(SetRun(freeMap, s, 1, true), d.start, BytesToSectors(d.length), true)
  }

  /** A new inode on free sectors joins the live ones. */
  lemma OwnAdd(freeMap: seq<bool>, disk: seq<Block>, live: set<nat>, leaked: set<nat>, s: nat, d: DiskInode)
    requires Own(freeMap, disk, live, leaked) && d.length < 0x8000_0000
    requires RunOf(freeMap, s, 1, false)
    requires RunOf(SetRun(freeMap, s, 1, true), d.start, BytesToSectors(d.length), false)
    ensures s !in live
    ensures Own(Taken(freeMap, s, d), Created(disk, s, d), live + {s}, leaked)
    ensures forall t | t in live :: IsHeader(disk, t) && Created(disk, s, d)[t] == disk[t]
    ensures Created(disk, s, d)[s] == Header(d)
    ensures KeepsCovered(disk, Created(disk, s, d), live)
  {
    hide UsedExactly;
    OwnAddApart(freeMap, disk, live, leaked, s, d);
    OwnAddCovers(disk, live, s, d);
    OwnAddUsed(freeMap, disk, live, leaked, s, d);
  }

  /** The new inode's sectors are no live inode's. */
  lemma OwnAddApart(freeMap: seq<bool>, disk: seq<Block>, live: set<nat>, leaked: set<nat>, s: nat, d: DiskInode)
    requires Own(freeMap, disk, live, leaked)
    requires RunOf(freeMap, s, 1, false)
    requires RunOf(SetRun(freeMap, s, 1, true), d.start, BytesToSectors(d.length), false)
    ensures s < |disk| && s !in live && s !in leaked && !(d.start <= s < d.start + BytesToSectors(d.length))
    ensures d.start + BytesToSectors(d.length) <= |disk|
    ensures forall x | d.start <= x < d.start + BytesToSectors(d.length) :: x !in leaked
    ensures forall t, x: nat | t in live && Covers(disk, t, x) ::
              x < |disk| && x != s && !(d.start <= x < d.start + BytesToSectors(d.length))
  {
    hide BytesToSectors;
    NewSectorsFree(freeMap, s, d);
    forall t, x: nat | t in live && Covers(disk, t, x)
      ensures x < |disk| && x != s && !(d.start <= x < d.start + BytesToSectors(d.length))
    {
      CoveredUsed(freeMap, disk, live, leaked, t, x);
    }
    if s in live { SelfCovers(disk, s); }
  }

  lemma SelfCovers(disk: seq<Block>, s: nat)
    ensures Covers(disk, s, s)
  {
  }

  lemma OwnAddCovers(disk: seq<Block>, live: set<nat>, s: nat, d: DiskInode)
    requires AllPlaced(disk, live) && s < |disk| && d.start + BytesToSectors(d.length) <= |disk|
    requires !(d.start <= s < d.start + BytesToSectors(d.length))
    requires forall t, x: nat | t in live && Covers(disk, t, x) ::
               x < |disk| && x != s && !(d.start <= x < d.start + BytesToSectors(d.length))
    ensures forall t | t in live :: IsHeader(disk, t) && Created(disk, s, d)[t] == disk[t]
    ensures Created(disk, s, d)[s] == Header(d)
    ensures KeepsCovered(disk, Created(disk, s, d), live)
    ensures forall x: nat, t | t in live :: Covers(Created(disk, s, d), t, x) <==> Covers(disk, t, x)
    ensures forall x: nat :: Covers(Created(disk, s, d), s, x) <==>
              x == s || d.start <= x < d.start + BytesToSectors(d.length)
  {
    hide BytesToSectors;
    forall t | t in live
      ensures IsHeader(disk, t) && Created(disk, s, d)[t] == disk[t]
    {
      assert Placed(disk, t) && Covers(disk, t, t);
    }
  }

  lemma NewSectorsFree(freeMap: seq<bool>, s: nat, d: DiskInode)
    requires RunOf(freeMap, s, 1, false)
    requires RunOf(SetRun(freeMap, s, 1, true), d.start, BytesToSectors(d.length), false)
    ensures s < |freeMap| && !freeMap[s]
    ensures !(d.start <= s < d.start + BytesToSectors(d.length))
    ensures forall x | d.start <= x < d.start + BytesToSectors(d.length) :: x < |freeMap| && !freeMap[x]
  {
  }

  lemma OwnAddUsed(freeMap: seq<bool>, disk: seq<Block>, live: set<nat>, leaked: set<nat>, s: nat, d: DiskInode)
    requires UsedExactly(freeMap, disk, live, leaked) && |freeMap| == |disk|
    requires s < |freeMap| && d.start + BytesToSectors(d.length) <= |freeMap|
    requires forall x: nat, t | t in live :: Covers(Created(disk, s, d), t, x) <==> Covers(disk, t, x)
    requires forall x: nat :: Covers(Created(disk, s, d), s, x) <==>
               x == s || d.start <= x < d.start + BytesToSectors(d.length)
    ensures UsedExactly(Taken(freeMap, s, d), Created(disk, s, d), live + {s}, leaked)
  {
    var disk', map' := Created(disk, s, d), Taken(freeMap, s, d);
    forall x | 0 <= x < |map'|
      ensures map'[x] <==> x in leaked || Owned(disk', live + {s}, x)
    {
      if Covers(disk', s, x) { assert s in live + {s}; }
      if Owned(disk, live, x) {
        var t :| t in live && Covers(disk, t, x);
        assert t in live + {s} && Covers(disk', t, x);
      }
      if Owned(disk', live + {s}, x) && !Covers(disk', s, x) {
        var t :| t in live + {s} && Covers(disk', t, x);
        assert t in live && Covers(disk, t, x);
      }
    }
  }

  /** disk' is disk with nothing changed but data sectors of inode s. */
  ghost predicate DataChange(disk: seq<Block>, disk': seq<Block>, s: nat) {
    && |disk'| == |disk|
    && forall x | 0 <= x < |disk| && disk'[x] != disk[x] :: InData(disk, s, x) && disk'[x].Data?
  }

  lemma OneOwner(disk: seq<Block>, live: set<nat>, s: nat, t: nat, x: nat)
    requires Disjoint(disk, live) && s in live && t in live && InData(disk, s, x) && Covers(disk, t, x)
    ensures s == t
  {
    assert Covers(disk, s, x);
  }

  /** Overwriting data of a live inode changes no header and no ownership. */
  lemma OwnData(freeMap: seq<bool>, disk: seq<Block>, live: set<nat>, leaked: set<nat>, s: nat, disk': seq<Block>)
    requires Own(freeMap, disk, live, leaked) && s in live && DataChange(disk, disk', s)
    ensures Own(freeMap, disk', live, leaked)
    ensures forall t | t in live :: t < |disk| && disk'[t] == disk[t]
    ensures forall t, x: nat | t in live && t != s && Covers(disk, t, x) :: x < |disk| && disk'[x] == disk[x]
  {
    assert Placed(disk, s);
    forall t, x: nat | t in live && t != s && Covers(disk, t, x)
      ensures x < |disk| && disk'[x] == disk[x]
    {
      CoveredUsed(freeMap, disk, live, leaked, t, x);
      if disk'[x] != disk[x] {
        OneOwner(disk, live, s, t, x);
        assert false;
      }
    }
    forall t | t in live
      ensures t < |disk| && disk'[t] == disk[t]
    {
      assert Placed(disk, t) && Covers(disk, t, t);
    }
    forall t, y: nat | t in live
      ensures Covers(disk', t, y) <==> Covers(disk, t, y)
    {
    }
    forall y | 0 <= y < |freeMap|
      ensures freeMap[y] <==> y in leaked || Owned(disk', live, y)
    {
      if Owned(disk, live, y) {
        var t :| t in live && Covers(disk, t, y);
        assert Covers(disk', t, y);
      }
      if Owned(disk', live, y) {
        var t :| t in live && Covers(disk', t, y);
        assert Covers(disk, t, y);
      }
    }
  }
}
