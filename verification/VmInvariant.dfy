/** Paging keeps every page's bytes: what memory holds, or can be rebuilt, is what it would be
    with a frame for every page. */
module VmInvariant {
  import opened Lists
  import opened Options
  import opened Bitmap
  import opened Bytes
  import opened Clock
  import opened VmModel
  import InodeIO

  /** How many of a page's bytes outlive an eviction: the mapped ones of a mapped file's page. */
  ghost function Kept(v: Vme): (n: nat)
    ensures n <= 4096
  {
    if v.kind == VmFile && v.readBytes <= 4096 then v.readBytes else 4096
  }

  ghost predicate Agree(v: Vme, a: Page, b: Page) {
    a[..Kept(v)] == b[..Kept(v)]
  }

  /** The list, the page records, the frames and the page tables describe the same loaded pages. */
  ghost predicate TablesOk(s: Vm) {
    && NoRepeats(s.lru) && HandOk(s.lru, s.hand)
    && (forall f :: f in s.lru <==> f in s.pages)
    && (forall f :: f in s.lru <==> f in s.frames)
    && (forall f | f in s.pages :: s.pages[f] in s.vmes && s.vmes[s.pages[f]].loaded)
    && (forall f | f in s.pages :: s.pages[f] in s.ptes && s.ptes[s.pages[f]].present && s.ptes[s.pages[f]].frame == f)
    && (forall k | k in s.ptes && s.ptes[k].present :: s.ptes[k].frame in s.pages && s.pages[s.ptes[k].frame] == k)
    && (forall k | k in s.vmes && s.vmes[k].loaded :: k in s.ptes && s.ptes[k].present)
  }

  /** The file ranges of two entries do not meet. */
  ghost predicate RangesApart(v: Vme, w: Vme) {
    v.file != w.file || v.offset + v.readBytes <= w.offset || w.offset + w.readBytes <= v.offset
    || v.readBytes == 0 || w.readBytes == 0
  }

  /** Entries backed by files lie in them, and nothing else maps a range that a mapped file's page
      is written back to. */
  ghost predicate EntriesOk(vmes: map<Key, Vme>, files: map<nat, FileData>) {
    && (forall k | k in vmes && vmes[k].kind != VmAnon ::
         vmes[k].file in files && Backed(vmes[k], files[vmes[k].file].bytes))
    && (forall j, k | j in vmes && k in vmes && j != k && vmes[j].kind == VmFile && vmes[k].kind != VmAnon ::
          RangesApart(vmes[j], vmes[k]))
  }

  /** k's bytes are in swap. */
  ghost predicate InSwap(vmes: map<Key, Vme>, k: Key) {
    k in vmes && vmes[k].kind == VmAnon && !vmes[k].loaded
  }

  /** Every page in swap has a slot of its own, marked used. */
  ghost predicate SwapOk(vmes: map<Key, Vme>, sp: SwapSpace) {
    && |sp.used| == |sp.slots|
    && (forall k | InSwap(vmes, k) ::
                  vmes[k].slot.Some? && vmes[k].slot.value < |sp.used| && sp.used[vmes[k].slot.value])
    && (forall j, k | InSwap(vmes, j) && InSwap(vmes, k) && j != k :: vmes[j].slot != vmes[k].slot)
  }

  /** Page k's bytes are where they should be. */
  ghost predicate PageOk(s: Vm, k: Key)
    requires k in s.vmes
  {
    var v := s.vmes[k];
    && k in s.plain
    && if v.loaded then
         && k in s.ptes && s.ptes[k].frame in s.frames && Agree(v, s.frames[s.ptes[k].frame], s.plain[k])
         && (v.kind != VmAnon && !s.ptes[k].dirty ==>
               Rebuild(v, s.files, s.swap).Some? && Agree(v, Rebuild(v, s.files, s.swap).value, s.plain[k]))
       else
         Rebuild(v, s.files, s.swap).Some? && Agree(v, Rebuild(v, s.files, s.swap).value, s.plain[k])
  }

  ghost predicate PagesOk(s: Vm) {
    forall k | k in s.vmes :: PageOk(s, k)
  }

  ghost predicate Inv(s: Vm) {
    !s.crashed && TablesOk(s) && EntriesOk(s.vmes, s.files) && SwapOk(s.vmes, s.swap) && PagesOk(s)
  }

  /** No page mapped, and swap space and files as they are. */
  ghost function Boot(swap: SwapSpace, files: map<nat, FileData>): Vm {
    Vm([], Null, map[], map[], map[], map[], swap, files, false, map[])
  }

  lemma BootInv(swap: SwapSpace, files: map<nat, FileData>)
    requires |swap.used| == |swap.slots|
    ensures Inv(Boot(swap, files))
  {
  }

  lemma Parts(s: Vm)
    ensures Inv(s) <==> !s.crashed && TablesOk(s) && EntriesOk(s.vmes, s.files) && SwapOk(s.vmes, s.swap) && PagesOk(s)
  {
  }

  // ---------------------------------------------------------------
  // The search
  // ---------------------------------------------------------------

  /** A page whose entry, frame and backing are as before is as safe as before. */
  ghost predicate Undisturbed(s: Vm, s': Vm, k: Key) {
    && k in s.vmes && k in s'.vmes && s'.vmes[k] == s.vmes[k] && k in s.plain && k in s'.plain
       && s'.plain[k] == s.plain[k]
    && var v := s.vmes[k];
       && ((v.loaded && v.kind == VmAnon) || Rebuild(v, s'.files, s'.swap) == Rebuild(v, s.files, s.swap))
       && (v.loaded ==>
                     && k in s.ptes && k in s'.ptes && s'.ptes[k].frame == s.ptes[k].frame
                     && s'.ptes[k].dirty == s.ptes[k].dirty && s.ptes[k].frame in s.frames
                     && s.ptes[k].frame in s'.frames && s'.frames[s.ptes[k].frame] == s.frames[s.ptes[k].frame])
  }

  lemma PageFrame(s: Vm, s': Vm, k: Key)
    requires Undisturbed(s, s', k) && PageOk(s, k)
    ensures PageOk(s', k)
  {
    hide Rebuild, Agree;
  }

  lemma PageParts(s: Vm, k: Key)
    requires k in s.vmes && PagesOk(s) && TablesOk(s)
    ensures PageOk(s, k) && k in s.plain
    ensures s.vmes[k].loaded ==>
                  k in s.ptes && s.ptes[k].present && s.ptes[k].frame in s.frames && s.ptes[k].frame in s.lru
    ensures s.vmes[k].loaded ==> s.ptes[k].frame in s.pages && s.pages[s.ptes[k].frame] == k
  {
    assert PageOk(s, k);
  }

  lemma SearchTables(s: Vm, hand: Hand, frames: set<nat>)
    requires TablesOk(s) && HandOk(s.lru, hand)
    ensures TablesOk(s.(hand := hand, ptes := ClearAccessed(s.ptes, frames)))
  {
  }

  lemma SearchKeeps(s: Vm)
    requires Inv(s) && HasVictim(s)
    ensures Inv(Search(s)) && Listed(Search(s), Victim(s))
  {
    hide EntriesOk, SwapOk, Victim, Spared, Rebuild, Agree, TablesOk, PageOk, Inv;
    Parts(s);
    var s' := Search(s);
    SearchTables(s, At(Victim(s)), Spared(s));
    forall k | k in s'.vmes
      ensures PageOk(s', k)
    {
      PageParts(s, k);
      PageFrame(s, s', k);
    }
    Parts(s');
    FrameAgrees(s', Victim(s));
  }

  // ---------------------------------------------------------------
  // Saving a page
  // ---------------------------------------------------------------

  /** f is listed and its entry's content is safe to drop. */
  ghost predicate Safe(s: Vm, f: nat) {
    && f in s.pages && s.pages[f] in s.vmes && s.pages[f] in s.plain
    && var k := s.pages[f];
       var v := s.vmes[k];
       && Rebuild(v, s.files, s.swap).Some? && Agree(v, Rebuild(v, s.files, s.swap).value, s.plain[k])
       && (v.kind == VmAnon ==> forall j | InSwap(s.vmes, j) :: s.vmes[j].slot != v.slot)
  }

  lemma FrameAgrees(s: Vm, f: nat)
    requires TablesOk(s) && PagesOk(s) && f in s.lru
    ensures Listed(s, f)
    ensures var k := s.pages[f];
            && PageOk(s, k) && s.vmes[k].loaded && s.ptes[k].frame == f && k in s.plain
            && Agree(s.vmes[k], s.frames[f], s.plain[k])
  {
    assert PageOk(s, s.pages[f]);
  }

  lemma ToSwapParts(vmes: map<Key, Vme>, files: map<nat, FileData>, sp: SwapSpace, k: Key, page: Page)
    requires k in vmes && vmes[k].loaded && EntriesOk(vmes, files) && SwapOk(vmes, sp) && SlotFree(sp)
    ensures var (sp', slot) := SwapOut(sp, page);
            var vmes' := vmes[k := vmes[k].(kind := VmAnon, slot := slot)];
            && EntriesOk(vmes', files) && SwapOk(vmes', sp')
            && (forall j | InSwap(vmes, j) :: vmes[j].slot != slot)
            && (forall j | InSwap(vmes, j) :: Rebuild(vmes[j], files, sp') == Rebuild(vmes[j], files, sp))
            && Rebuild(vmes'[k], files, sp') == Some(page)
            && (forall j :: InSwap(vmes', j) <==> InSwap(vmes, j))
  {
    SwapOutFinds(sp, page);
    var (sp', slot) := SwapOut(sp, page);
    var vmes' := vmes[k := vmes[k].(kind := VmAnon, slot := slot)];
    forall j
      ensures InSwap(vmes', j) <==> InSwap(vmes, j)
      ensures InSwap(vmes, j) ==> j != k && vmes'[j] == vmes[j]
    {
    }
  }

  lemma EntryTables(s: Vm, k: Key, v: Vme)
    requires TablesOk(s) && k in s.vmes && v.loaded == s.vmes[k].loaded
    ensures TablesOk(s.(vmes := s.vmes[k := v]))
  {
  }

  lemma TablesFrame(s: Vm, s': Vm)
    requires TablesOk(s) && s'.lru == s.lru && s'.hand == s.hand && s'.pages == s.pages && s'.ptes == s.ptes
    requires s'.frames.Keys == s.frames.Keys && s'.vmes == s.vmes
    ensures TablesOk(s')
  {
  }

  /** A page put into swap is safe to drop, and no other page is disturbed. */
  lemma ToSwapKeeps(s: Vm, f: nat)
    requires Inv(s) && SlotFree(s.swap)
    requires Listed(s, f) && s.vmes[s.pages[f]].kind != VmFile
    ensures var s' := ToSwap(s, s.pages[f], f);
            Inv(s') && Safe(s', f) && Listed(s', f) && s'.lru == s.lru && s'.pages == s.pages && s'.hand == s.hand
  {
    hide EntriesOk, SwapOk, Rebuild, TablesOk, PageOk, Inv, SwapOut;
    Parts(s);
    FrameAgrees(s, f);
    var k := s.pages[f];
    var s' := ToSwap(s, k, f);
    ToSwapParts(s.vmes, s.files, s.swap, k, s.frames[f]);
    EntryTables(s, k, s'.vmes[k]);
    TablesFrame(s.(vmes := s'.vmes), s');
    BackedBySwap(s, s', f);
    forall j | j in s'.vmes
      ensures PageOk(s', j)
    {
      PageParts(s, j);
      if j != k {
        if s.vmes[j].kind != VmAnon { RebuildFromFile(s.vmes[j], s.files, s.swap, s'.swap); }
        PageFrame(s, s', j);
      }
    }
    Parts(s');
  }

  lemma RebuildFromFile(v: Vme, files: map<nat, FileData>, sp: SwapSpace, sp': SwapSpace)
    requires v.kind != VmAnon
    ensures Rebuild(v, files, sp) == Rebuild(v, files, sp')
  {
  }

  lemma BackedBySwap(s: Vm, s': Vm, f: nat)
    requires Listed(s, f) && s'.pages == s.pages && s'.ptes == s.ptes && s'.frames == s.frames && s'.plain == s.plain
    requires var k := s.pages[f];
             && k in s'.vmes && s'.vmes[k] == s.vmes[k].(kind := VmAnon, slot := s'.vmes[k].slot)
                && s.vmes[k].kind != VmFile
             && s.vmes[k].loaded && s.ptes[k].frame == f && k in s.plain
             && Agree(s.vmes[k], s.frames[f], s.plain[k])
             && Rebuild(s'.vmes[k], s'.files, s'.swap) == Some(s.frames[f])
             && forall j | InSwap(s'.vmes, j) :: s'.vmes[j].slot != s'.vmes[k].slot
    ensures PageOk(s', s.pages[f]) && Safe(s', f)
  {
    hide Rebuild;
  }

  // ---------------------------------------------------------------
  // Writing a mapped file's page back
  // ---------------------------------------------------------------

  lemma ImageAfterWrite(v: Vme, bytes: seq<byte>, page: Page)
    requires Backed(v, bytes) && v.readBytes > 0
    ensures v.readBytes <= 4096 && v.offset + v.readBytes <= |bytes|
    ensures var bytes' := Patch(bytes, v.offset, page[..v.readBytes]);
            Backed(v, bytes') && Image(v, bytes')[..v.readBytes] == page[..v.readBytes]
  {
    PatchReadBack(bytes, v.offset, page[..v.readBytes]);
  }

  lemma ImageElsewhere(v: Vme, w: Vme, bytes: seq<byte>, data: seq<byte>)
    requires Backed(v, bytes) && Backed(w, bytes) && v.readBytes > 0 && |data| == v.readBytes
    requires v.file == w.file && RangesApart(v, w)
    ensures var bytes' := Patch(bytes, v.offset, data);
            Backed(w, bytes') && Image(w, bytes') == Image(w, bytes)
  {
    if w.readBytes > 0 { PatchElsewhere(bytes, v.offset, data, w.offset, w.offset + w.readBytes); }
  }

  /** What a write back to v's range does to the other entries and their images. */
  lemma WriteParts(vmes: map<Key, Vme>, files: map<nat, FileData>, sp: SwapSpace, k: Key, data: seq<byte>)
    requires EntriesOk(vmes, files) && k in vmes && vmes[k].kind == VmFile && vmes[k].readBytes > 0
             && |data| == vmes[k].readBytes
    ensures vmes[k].file in files && vmes[k].offset + |data| <= |files[vmes[k].file].bytes|
    ensures var v := vmes[k];
            var d := files[v.file];
            var files' := files[v.file := d.(bytes := Patch(d.bytes, v.offset, data))];
            && EntriesOk(vmes, files')
            && forall j | j in vmes && j != k && vmes[j].kind != VmAnon ::
                 Rebuild(vmes[j], files', sp) == Rebuild(vmes[j], files, sp)
  {
    hide Image, Patch, RangesApart;
    var v := vmes[k];
    assert Backed(v, files[v.file].bytes);
    var d := files[v.file];
    var files' := files[v.file := d.(bytes := Patch(d.bytes, v.offset, data))];
    forall j | j in vmes && j != k && vmes[j].kind != VmAnon
      ensures Rebuild(vmes[j], files', sp) == Rebuild(vmes[j], files, sp)
    {
      if vmes[j].file == v.file {
        assert RangesApart(v, vmes[j]);
        ImageElsewhere(v, vmes[j], d.bytes, data);
      }
    }
  }

  lemma RebuildSwap(v: Vme, files: map<nat, FileData>, files': map<nat, FileData>, sp: SwapSpace)
    requires v.kind == VmAnon
    ensures Rebuild(v, files, sp) == Rebuild(v, files', sp)
  {
  }

  /** The owner's dirty page of a mapped file is safe to drop once written back, and no other page
      is disturbed. */
  lemma WriteBackKeeps(s: Vm, f: nat)
    requires Inv(s) && Listed(s, f) && s.vmes[s.pages[f]].kind == VmFile && s.ptes[s.pages[f]].dirty
    requires s.vmes[s.pages[f]].file in s.files && !s.files[s.vmes[s.pages[f]].file].denied
    ensures var s' := WriteBack(s, s.pages[f], s.pages[f].thread);
            Inv(s') && Safe(s', f) && Listed(s', f) && s'.lru == s.lru && s'.pages == s.pages && s'.hand == s.hand
  {
    hide EntriesOk, SwapOk, Rebuild, TablesOk, PageOk, Inv, Image, Patch, Agree;
    Parts(s);
    FrameAgrees(s, f);
    var k := s.pages[f];
    var v := s.vmes[k];
    OwnBytes(s, f);
    EntryBacked(s.vmes, s.files, k);
    var d := s.files[v.file];
    var s' := WriteBack(s, k, k.thread);
    if v.readBytes == 0 {
      EmptyRangeSafe(s, f);
    } else {
      var data := s.frames[f][..v.readBytes];
      WriteParts(s.vmes, s.files, s.swap, k, data);
      ImageAfterWrite(v, d.bytes, s.frames[f]);
      assert s'.files == s.files[v.file := d.(bytes := Patch(d.bytes, v.offset, data))];
      TablesFrame(s, s');
      BackedByFile(s, s', f);
      forall j | j in s'.vmes
        ensures PageOk(s', j)
      {
        PageParts(s, j);
        if j != k {
          if s.vmes[j].kind == VmAnon { RebuildSwap(s.vmes[j], s.files, s'.files, s.swap); }
          PageFrame(s, s', j);
        }
      }
      Parts(s');
    }
  }

  lemma OwnBytes(s: Vm, f: nat)
    requires TablesOk(s) && Listed(s, f)
    ensures var k := s.pages[f]; UserBytes(s, k.thread, k.vpage) == Some(s.frames[f])
  {
    var k := s.pages[f];
    assert Key(k.thread, k.vpage) == k;
  }

  lemma EntryBacked(vmes: map<Key, Vme>, files: map<nat, FileData>, k: Key)
    requires EntriesOk(vmes, files) && k in vmes && vmes[k].kind != VmAnon
    ensures vmes[k].file in files && Backed(vmes[k], files[vmes[k].file].bytes)
  {
  }

  lemma EmptyRangeSafe(s: Vm, f: nat)
    requires EntriesOk(s.vmes, s.files) && Listed(s, f) && s.vmes[s.pages[f]].kind == VmFile
             && s.vmes[s.pages[f]].readBytes == 0
    requires s.pages[f] in s.plain
    ensures Safe(s, f)
  {
    EntryBacked(s.vmes, s.files, s.pages[f]);
  }

  lemma BackedByFile(s: Vm, s': Vm, f: nat)
    requires Listed(s, f) && s'.pages == s.pages && s'.ptes == s.ptes && s'.frames == s.frames
             && s'.plain == s.plain && s'.vmes == s.vmes
    requires var k := s.pages[f];
             var v := s.vmes[k];
             && v.kind == VmFile && 0 < v.readBytes <= 4096 && v.loaded && s.ptes[k].frame == f && s.ptes[k].dirty
                && k in s.plain
             && Agree(v, s.frames[f], s.plain[k])
             && v.file in s'.files && Backed(v, s'.files[v.file].bytes)
             && Image(v, s'.files[v.file].bytes)[..v.readBytes] == s.frames[f][..v.readBytes]
    ensures PageOk(s', s.pages[f]) && Safe(s', f)
  {
    hide Image;
  }

  /** A clean page of a file is safe to drop as it is. */
  lemma CleanIsSafe(s: Vm, f: nat)
    requires Inv(s) && Listed(s, f) && s.vmes[s.pages[f]].kind != VmAnon && !s.ptes[s.pages[f]].dirty
    ensures Safe(s, f)
  {
    hide EntriesOk, SwapOk, Rebuild, TablesOk, Agree;
    FrameAgrees(s, f);
  }

  // ---------------------------------------------------------------
  // Dropping a page
  // ---------------------------------------------------------------

  lemma {:induction false} WithoutIs(list: seq<nat>, p: nat)
    requires NoRepeats(list)
    ensures NoRepeats(Without(list, p))
    ensures forall f :: f in Without(list, p) <==> f in list && f != p
    ensures p in list ==> |Without(list, p)| == |list| - 1
  {
    if list != [] {
      var rest := list[1..];
      assert list == [list[0]] + rest;
      assert forall i | 0 <= i < |rest| :: rest[i] == list[i + 1];
      WithoutIs(rest, p);
      if list[0] != p {
        var r := Without(rest, p);
        forall i, j | 0 <= i < j < |r| + 1
          ensures ([list[0]] + r)[i] != ([list[0]] + r)[j]
        {
          if i == 0 { assert r[j - 1] in rest; }
        }
      }
    }
  }

  lemma AfterOther(list: seq<nat>, p: nat)
    requires NoRepeats(list) && p in list
    ensures After(list, p).At? ==> After(list, p).page != p && After(list, p).page in list
  {
  }

  lemma ReleaseTables(s: Vm, f: nat)
    requires TablesOk(s) && Listed(s, f)
    ensures TablesOk(Release(s, f))
  {
    hide Without, After, IndexOf;
    WithoutIs(s.lru, f);
    AfterOther(s.lru, f);
  }

  /** Giving up the frame of a page that is safe to drop. */
  lemma ReleaseKeeps(s: Vm, f: nat)
    requires Inv(s) && Listed(s, f) && Safe(s, f)
    ensures Inv(Release(s, f))
  {
    hide Rebuild, TablesOk, PageOk, Inv, Agree, Without, After, EntriesOk, SwapOk;
    Parts(s);
    FrameAgrees(s, f);
    var k := s.pages[f];
    var s' := Release(s, f);
    ReleaseTables(s, f);
    ReleaseEntries(s, f);
    DroppedPage(s, f);
    forall j | j in s'.vmes
      ensures PageOk(s', j)
    {
      PageParts(s, j);
      if j != k { PageFrame(s, s', j); }
    }
    Parts(s');
  }

  lemma ReleaseEntries(s: Vm, f: nat)
    requires EntriesOk(s.vmes, s.files) && SwapOk(s.vmes, s.swap) && Listed(s, f) && Safe(s, f)
    ensures var s' := Release(s, f);
            EntriesOk(s'.vmes, s'.files) && SwapOk(s'.vmes, s'.swap)
  {
    hide Without, After, Image, Agree;
    var k := s.pages[f];
    var s' := Release(s, f);
    forall j | InSwap(s'.vmes, j)
      ensures j != k ==> InSwap(s.vmes, j) && s'.vmes[j] == s.vmes[j]
    {
    }
  }

  lemma DroppedPage(s: Vm, f: nat)
    requires Listed(s, f) && Safe(s, f)
    ensures PageOk(Release(s, f), s.pages[f])
  {
    hide Without, After, Zeros;
    var k := s.pages[f];
    var v := s.vmes[k];
    assert Rebuild(v.(loaded := false), s.files, s.swap) == Rebuild(v, s.files, s.swap);
  }
}
