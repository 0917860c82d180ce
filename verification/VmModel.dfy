/** Virtual memory (vm/frame.c, vm/swap.c, vm/page.c) as functions on a value. Frames are named
    by numbers, a page's vm_entry by its thread and page address. A fault inside the kernel sets
    crashed. */
module VmModel {
  import opened Options
  import opened Bitmap
  import opened Bytes
  import opened Clock
  import InodeIO

  datatype Kind = VmBin | VmFile | VmAnon

  /** A page of a thread's address space; vaddr is the page number. */
  datatype Key = Key(thread: nat, vpage: nat)

  datatype Vme = Vme(kind: Kind, writable: bool, loaded: bool, file: nat, pinned: bool, offset: nat, readBytes: nat,
                     zeroBytes: nat, slot: Option<nat>)

  datatype Pte = Pte(frame: nat, present: bool, accessed: bool, dirty: bool)

  datatype FileData = FileData(bytes: seq<byte>, denied: bool)

  datatype SwapSpace = SwapSpace(used: seq<bool>, slots: seq<Page>)

  /** plain is history: the bytes each page would hold if memory were never short. */
  datatype Vm = Vm(lru: seq<nat>, hand: Hand, pages: map<nat, Key>, vmes: map<Key, Vme>, ptes: map<Key, Pte>,
                   frames: map<nat, Page>, swap: SwapSpace, files: map<nat, FileData>, crashed: bool, plain: map<Key,
                       Page>)

  // ---------------------------------------------------------------
  // swap.c
  // ---------------------------------------------------------------

  ghost function SwapOut(sp: SwapSpace, page: Page): (SwapSpace, Option<nat>) {
    match FirstRun(sp.used, 0, 1, false)
    case Some(i) => if i < |sp.slots| then (SwapSpace(sp.used[i := true], sp.slots[i := page]), Some(i)) else (sp, None)
    case None => (sp, None)
  }

  /** None stands for a return that leaves the frame as it was. */
  ghost function SwapIn(sp: SwapSpace, slot: Option<nat>): (SwapSpace, Option<Page>) {
    if slot.Some? && slot.value < |sp.used| && sp.used[slot.value] && slot.value < |sp.slots|
    then (sp.(used := sp.used[slot.value := false]), Some(sp.slots[slot.value]))
    else (sp, None)
  }

  ghost predicate SlotFree(sp: SwapSpace) {
    exists i: nat :: i < |sp.used| && !sp.used[i]
  }

  /** A free slot is found whenever there is one, and it is the lowest. */
  lemma SwapOutFinds(sp: SwapSpace, page: Page)
    requires |sp.used| == |sp.slots|
    ensures var (sp', slot) := SwapOut(sp, page);
            && (slot.Some? <==> SlotFree(sp))
            && (slot.None? ==> sp' == sp)
            && (slot.Some? ==> slot.value < |sp.used| && !sp.used[slot.value] && forall j: nat | j < slot.value ::
                 sp.used[j])
  {
    var r := FirstRun(sp.used, 0, 1, false);
    if i: nat :| i < |sp.used| && !sp.used[i] {
      assert RunOf(sp.used, i, 1, false);
    }
    if r.Some? {
      assert !sp.used[r.value];
      forall j: nat | j < r.value
        ensures sp.used[j]
      {
        assert !RunOf(sp.used, j, 1, false);
      }
    }
  }

  /** What goes out to a slot comes back from it, and the slot is free again. */
  lemma SwapRoundTrip(sp: SwapSpace, page: Page)
    requires |sp.used| == |sp.slots| && SlotFree(sp)
    ensures var (sp', slot) := SwapOut(sp, page);
            SwapIn(sp', slot) == (SwapSpace(sp.used, sp'.slots), Some(page))
  {
    SwapOutFinds(sp, page);
    var (sp', slot) := SwapOut(sp, page);
    assert sp'.used[slot.value := false] == sp.used;
  }

  // ---------------------------------------------------------------
  // page.c
  // ---------------------------------------------------------------

  /** The file reaches as far as the entry says, and the entry describes one page. */
  ghost predicate Backed(v: Vme, bytes: seq<byte>) {
    v.readBytes + v.zeroBytes == 4096 && (v.readBytes == 0 || v.offset + v.readBytes <= |bytes|)
  }

  /** The page that load_file is meant to build. */
  ghost function Image(v: Vme, bytes: seq<byte>): Page
    requires Backed(v, bytes)
  {
    (if v.readBytes == 0 then [] else bytes[v.offset..v.offset + v.readBytes]) + Zeros(v.zeroBytes)
  }

  /** The page that load_file or swap_in makes of a vm_entry, whatever the frame held. */
  ghost function Rebuild(v: Vme, files: map<nat, FileData>, sp: SwapSpace): Option<Page> {
    if v.kind == VmAnon then SwapIn(sp, v.slot).1
    else if v.file in files && Backed(v, files[v.file].bytes) then Some(Image(v, files[v.file].bytes))
    else None
  }

  // ---------------------------------------------------------------
  // frame.c
  // ---------------------------------------------------------------

  /** list_remove. */
  function Without(list: seq<nat>, p: nat): (r: seq<nat>) {
    if list == [] then [] else if list[0] == p then list[1..] else [list[0]] + Without(list[1..], p)
  }

  ghost function PinnedFrames(s: Vm): set<nat> {
    set f | f in s.lru && f in s.pages && s.pages[f] in s.vmes && s.vmes[s.pages[f]].pinned
  }

  ghost function AccessedFrames(s: Vm): set<nat> {
    set f | f in s.lru && f in s.pages && s.pages[f] in s.ptes && s.ptes[s.pages[f]].accessed
  }

  /** try_to_free_pages finds a page. */
  ghost predicate HasVictim(s: Vm) {
    |s.lru| >= 2 && HandOk(s.lru, s.hand) && HasCandidate(s.lru, PinnedFrames(s))
  }

  ghost function StopTime(s: Vm): (k: nat)
    requires HasVictim(s)
    ensures EndsAt(s.lru, HandIndex(s.lru, s.hand), AccessedFrames(s), PinnedFrames(s), k)
  {
    SearchEnds(s.lru, HandIndex(s.lru, s.hand), AccessedFrames(s), PinnedFrames(s));
    var k: nat :| EndsAt(s.lru, HandIndex(s.lru, s.hand), AccessedFrames(s), PinnedFrames(s), k);
    k
  }

  ghost function Victim(s: Vm): (f: nat)
    requires HasVictim(s)
    ensures f in s.lru && f !in PinnedFrames(s)
  {
    s.lru[Visit(|s.lru|, HandIndex(s.lru, s.hand), StopTime(s))]
  }

  /** The frames whose accessed bits the search clears. */
  ghost function Spared(s: Vm): (r: set<nat>)
    requires HasVictim(s)
  {
    Visited(s.lru, HandIndex(s.lru, s.hand), StopTime(s))
  }

  ghost function ClearAccessed(ptes: map<Key, Pte>, frames: set<nat>): (r: map<Key, Pte>)
    ensures r.Keys == ptes.Keys
  {
    map k | k in ptes :: if ptes[k].present && ptes[k].frame in frames then ptes[k].(accessed := false) else ptes[k]
  }

  ghost function Search(s: Vm): Vm
    requires HasVictim(s)
  {
    s.(hand := At(Victim(s)), ptes := ClearAccessed(s.ptes, Spared(s)))
  }

  /** What the running thread sees at a page of its address space. */
  ghost function UserBytes(s: Vm, current: nat, vpage: nat): Option<Page> {
    var k := Key(current, vpage);
    if k in s.ptes && s.ptes[k].present && s.ptes[k].frame in s.frames then Some(s.frames[s.ptes[k].frame]) else None
  }

  /** file_write_at from the page's user address, which the running thread's page table translates. */
  ghost function WriteBack(s: Vm, k: Key, current: nat): Vm
    requires k in s.vmes
  {
    var v := s.vmes[k];
    if v.file !in s.files then s.(crashed := true)
    else
      var d := s.files[v.file];
      var n := if d.denied then 0 else InodeIO.TransferCount(v.readBytes, v.offset, |d.bytes|);
      if n == 0 then s
      else match UserBytes(s, current, k.vpage)
        case None => s.(crashed := true)
        case Some(page) =>
          if n > 4096 then s.(crashed := true)
          else s.(files := s.files[v.file := d.(bytes := Patch(d.bytes, v.offset, page[..n]))])
  }

  ghost function ToSwap(s: Vm, k: Key, f: nat): Vm
    requires k in s.vmes && f in s.frames
  {
    var (sp, slot) := SwapOut(s.swap, s.frames[f]);
    s.(swap := sp, vmes := s.vmes[k := s.vmes[k].(kind := VmAnon, slot := slot)])
  }

  /** The switch of try_to_free_pages. */
  ghost function Save(s: Vm, f: nat, current: nat): Vm
    requires f in s.pages && s.pages[f] in s.vmes && s.pages[f] in s.ptes && f in s.frames
  {
    var k := s.pages[f];
    match s.vmes[k].kind
    case VmBin => if s.ptes[k].dirty then ToSwap(s, k, f) else s
    case VmFile => if s.ptes[k].dirty then WriteBack(s, k, current) else s
    case VmAnon => ToSwap(s, k, f)
  }

  /** __free_page, after is_loaded has been cleared and the hand moved on. */
  ghost function Release(s: Vm, f: nat): Vm
    requires f in s.lru && f in s.pages && s.pages[f] in s.vmes && s.pages[f] in s.ptes
  {
    var k := s.pages[f];
    s.(vmes := s.vmes[k := s.vmes[k].(loaded := false)],
       ptes := s.ptes[k := s.ptes[k].(present := false)],
       hand := if s.hand == At(f) then After(s.lru, f) else s.hand,
       lru := Without(s.lru, f), pages := s.pages - {f}, frames := s.frames - {f})
  }

  ghost predicate Listed(s: Vm, f: nat) {
    f in s.lru && f in s.pages && s.pages[f] in s.vmes && s.pages[f] in s.ptes && f in s.frames
  }

  /** try_to_free_pages. */
  ghost function Evict(s: Vm, current: nat): Vm
    requires HasVictim(s) && Listed(s, Victim(s))
  {
    var f := Victim(s);
    var s1 := Search(s);
    var s2 := Save(s1, f, current);
    Release(s2, f)
  }

  // ---------------------------------------------------------------
  // What else happens to pages
  // ---------------------------------------------------------------

  /** insert_vme: a second entry for a page is refused. */
  ghost function InsertVme(s: Vm, k: Key, v: Vme): (Vm, bool) {
    if k in s.vmes then (s, false)
    else
      match Rebuild(v, s.files, s.swap)
      case Some(p) => (s.(vmes := s.vmes[k := v], plain := s.plain[k := p]), true)
      case None => (s.(vmes := s.vmes[k := v]), true)
  }

  /** A page comes in: alloc_page gave frame f, and load_file or swap_in fills it. */
  ghost function PageIn(s: Vm, k: Key, f: nat): Vm
    requires k in s.vmes
  {
    var v := s.vmes[k];
    match Rebuild(v, s.files, s.swap)
    case None => s.(crashed := true)
    case Some(page) =>
      s.(swap := if v.kind == VmAnon then SwapIn(s.swap, v.slot).0 else s.swap,
         frames := s.frames[f := page], lru := s.lru + [f], pages := s.pages[f := k],
         ptes := s.ptes[k := Pte(f, true, false, false)], vmes := s.vmes[k := v.(loaded := true)])
  }

  /** A new zeroed page, as setup_stack makes one, with an anonymous entry. */
  ghost function MapZero(s: Vm, k: Key, f: nat, pinned: bool): Vm {
    s.(frames := s.frames[f := Zeros(4096)], lru := s.lru + [f], pages := s.pages[f := k],
       ptes := s.ptes[k := Pte(f, true, false, false)],
       vmes := s.vmes[k := Vme(VmAnon, true, true, 0, pinned, 0, 0, 4096, None)], plain := s.plain[k := Zeros(4096)])
  }

  /** The owner reads or writes its page; the processor sets the accessed and dirty bits. */
  ghost function Access(s: Vm, k: Key, at: nat, w: seq<byte>): Vm
    requires k in s.ptes && s.ptes[k].present && s.ptes[k].frame in s.frames && k in s.plain && at + |w| <= 4096
  {
    var pte := s.ptes[k];
    s.(ptes := s.ptes[k := pte.(accessed := true, dirty := pte.dirty || w != [])],
       frames := s.frames[pte.frame := Patch(s.frames[pte.frame], at, w)],
       plain := s.plain[k := Patch(s.plain[k], at, w)])
  }
}
