/** vm/swap.c and vm/frame.c as they run: sectors copied one by one, the list, the hand, the
    entries and the accessed bits changed in place. Each method is proved to take the step of
    the function that bears its name in VmModel. */
module VirtualMemory {
  import opened Lists
  import opened Options
  import opened Bitmap
  import opened Bytes
  import opened Clock
  import opened InodeIO
  import opened VmModel
  import opened VmInvariant
  import opened VmTheorems

  /** The page in slot i of the swap device. */
  ghost function SlotOf(d: seq<Sector>, i: nat): Page
    requires 8 * i + 8 <= |d|
  {
    Flat(d[8 * i..8 * i + 8])
  }

  lemma FlatExtend(d: seq<Sector>, a: nat, n: nat)
    requires a + n < |d|
    ensures Flat(d[a..a + n + 1]) == Flat(d[a..a + n]) + d[a + n]
  {
    var e := d[a..a + n + 1];
    assert e[..|e| - 1] == d[a..a + n];
  }

  class Swap {
    const bitmap: Bitmap
    const dev: Device

    /** swap_init: a slot for every eight sectors. */
    constructor (dev: Device)
      ensures this.dev == dev && fresh(bitmap) && fresh(bitmap.bits) && Valid()
      ensures bitmap.bits.Length == dev.sectors.Length / 8 && forall i | 0 <= i < bitmap.bits.Length :: !bitmap.bits[i]
    {
      this.dev := dev;
      bitmap := new Bitmap(dev.sectors.Length / 8);
    }

    ghost predicate Valid()
      reads this
    {
      8 * bitmap.bits.Length <= dev.sectors.Length
    }

    ghost function Space(): (sp: SwapSpace)
      requires Valid()
      reads this, bitmap, bitmap.bits, dev, dev.sectors
      ensures |sp.used| == |sp.slots| == bitmap.bits.Length
      ensures forall i | 0 <= i < bitmap.bits.Length ::
                sp.used[i] == bitmap.bits[i] && sp.slots[i] == SlotOf(dev.sectors[..], i)
    {
      var d, n := dev.sectors[..], bitmap.bits.Length;
      SwapSpace(bitmap.bits[..], seq(n, i requires 0 <= i < n => SlotOf(d, i)))
    }

    /** The loop that writes the eight sectors of slot s. */
    method WriteSlot(s: nat, page: Page)
      requires 8 * s + 8 <= dev.sectors.Length
      modifies dev.sectors
      ensures SlotOf(dev.sectors[..], s) == page
      ensures forall j | 0 <= j < dev.sectors.Length && !(8 * s <= j < 8 * s + 8) ::
                dev.sectors[j] == old(dev.sectors[j])
    {
      hide Flat;
      FlatNone(dev.sectors[..][8 * s..8 * s]);
      var i := 0;
      while i < 8
        invariant 0 <= i <= 8
        invariant forall j | 0 <= j < dev.sectors.Length && !(8 * s <= j < 8 * s + i) ::
                    dev.sectors[j] == old(dev.sectors[j])
        invariant Flat(dev.sectors[..][8 * s..8 * s + i]) == page[..512 * i]
      {
        ghost var before := dev.sectors[..];
        dev.BlockWrite(8 * s + i, page[512 * i..512 * i + 512]);
        FlatExtend(dev.sectors[..], 8 * s, i);
        assert dev.sectors[..][8 * s..8 * s + i] == before[8 * s..8 * s + i];
        assert page[..512 * (i + 1)] == page[..512 * i] + page[512 * i..512 * i + 512];
        i := i + 1;
      }
      assert page[..4096] == page;
    }

    method SwapOut(page: Page) returns (slot: Option<nat>)
      requires Valid()
      modifies bitmap.bits, dev.sectors
      ensures (Space(), slot) == VmModel.SwapOut(old(Space()), page)
    {
      hide SlotOf, SetRun, FirstRun;
      ghost var was := Space();
      slot := bitmap.ScanAndFlip(0, 1, false);
      if slot.Some? {
        ghost var d := dev.sectors[..];
        WriteSlot(slot.value, page);
        ghost var d' := dev.sectors[..];
        forall j | 0 <= j < bitmap.bits.Length && j != slot.value
          ensures SlotOf(d', j) == SlotOf(d, j)
        {
          SlotElsewhere(d, d', j, slot.value);
        }
        assert Space().slots == was.slots[slot.value := page];
        assert Space().used == was.used[slot.value := true] by { SetOne(was.used, slot.value); }
      }
    }

    /** The loop that reads the eight sectors of slot s. */
    method ReadSlot(s: nat, frame: array<byte>)
      requires 8 * s + 8 <= dev.sectors.Length && frame.Length == 4096
      modifies frame
      ensures frame[..] == SlotOf(dev.sectors[..], s)
    {
      hide Patch, Flat;
      ghost var d, before := dev.sectors[..], frame[..];
      var i := 0;
      FlatNone(d[8 * s..8 * s]);
      PatchNothing(before, 0, []);
      while i < 8
        invariant 0 <= i <= 8
        invariant frame[..] == Patch(before, 0, Flat(d[8 * s..8 * s + i]))
      {
        FlatExtend(d, 8 * s, i);
        PatchAppend(before, 0, Flat(d[8 * s..8 * s + i]), d[8 * s + i]);
        dev.BlockRead(8 * s + i, frame, 512 * i);
        i := i + 1;
      }
      PatchWhole(before, SlotOf(d, s));
    }

    /** The frame keeps what it held when the slot is none or empty. */
    method SwapIn(slot: Option<nat>, frame: array<byte>)
      requires Valid() && frame.Length == 4096 && (slot.Some? ==> slot.value < bitmap.bits.Length)
      modifies bitmap.bits, frame
      ensures Space() == VmModel.SwapIn(old(Space()), slot).0
      ensures var r := VmModel.SwapIn(old(Space()), slot).1; frame[..] == if r.Some? then r.value else old(frame[..])
    {
      if slot.None? {
        return;
      }
      var s := slot.value;
      if !bitmap.bits[s] {
        return;
      }
      ghost var was := Space();
      ReadSlot(s, frame);
      bitmap.SetMultiple(s, 1, false);
      assert Space().used == was.used[s := false];
      assert Space().slots == was.slots;
    }
  }

  lemma SlotElsewhere(d: seq<Sector>, d': seq<Sector>, i: nat, s: nat)
    requires |d| == |d'| && 8 * i + 8 <= |d| && i != s
    requires forall j | 0 <= j < |d| && !(8 * s <= j < 8 * s + 8) :: d'[j] == d[j]
    ensures SlotOf(d, i) == SlotOf(d', i)
  {
    assert d'[8 * i..8 * i + 8] == d[8 * i..8 * i + 8];
  }

  lemma SetOne(bits: seq<bool>, i: nat)
    requires i < |bits|
    ensures SetRun(bits, i, 1, true) == bits[i := true]
  {
  }

  lemma FlatNone(d: seq<Sector>)
    requires |d| == 0
    ensures Flat(d) == []
  {
  }

  // ---------------------------------------------------------------
  // page.c
  // ---------------------------------------------------------------

  /** load_file through the open file of an entry: it succeeds exactly when the file reaches far
      enough, and then the frame holds the entry's page. */
  method LoadFile(frame: array<byte>, file: File, dev: Device, v: Vme, bounceOk: bool) returns (ok: bool)
    requires frame.Length == 4096 && v.readBytes + v.zeroBytes == 4096 && file.inode.OnDevice(dev)
    modifies frame, file
    ensures bounceOk ==> (ok <==> Backed(v, file.inode.Content(dev)))
    ensures ok ==> Backed(v, file.inode.Content(dev)) && frame[..] == Image(v, file.inode.Content(dev))
  {
    hide Patch, Flat;
    file.Seek(v.offset);
    ghost var c, was := file.inode.Content(dev), frame[..];
    var size := file.Read(dev, frame, v.readBytes, bounceOk);
    ghost var head := frame[..];
    var i := 0;
    while i < v.zeroBytes
      modifies frame
      invariant 0 <= i <= v.zeroBytes
      invariant forall j | 0 <= j < 4096 :: frame[j] == if size <= j < size + i then 0 else head[j]
    {
      frame[size + i] := 0;
      i := i + 1;
    }
    ok := size == v.readBytes;
    if ok {
      LoadedImage(was, head, frame[..], v, c);
    }
  }

  lemma LoadedImage(was: Page, head: Page, frame: Page, v: Vme, c: seq<byte>)
    requires v.readBytes + v.zeroBytes == 4096 && v.readBytes == TransferCount(v.readBytes, v.offset, |c|)
    requires head == Patch(was, 0, Stretch(c, v.offset, v.readBytes))
    requires forall j | 0 <= j < 4096 :: frame[j] == if v.readBytes <= j then 0 else head[j]
    ensures Backed(v, c) && frame == Image(v, c)
  {
    forall j | 0 <= j < 4096
      ensures frame[j] == Image(v, c)[j]
    {
      PatchAt(was, 0, Stretch(c, v.offset, v.readBytes), j);
    }
  }

  // ---------------------------------------------------------------
  // frame.c
  // ---------------------------------------------------------------

  /** The hand on page k of the sweep. */
  lemma NextVisit(list: seq<nat>, hand: Hand)
    requires |list| >= 2 && NoRepeats(list) && HandOk(list, hand)
    ensures var i := HandIndex(list, hand);
            After(list, if hand.At? then hand.page else list[0]) == if i + 1 < |list| then At(list[i + 1]) else End
    ensures forall j | 0 <= j < |list| :: HandIndex(list, At(list[j])) == j
  {
    IndexUnique(list, 0);
    forall j | 0 <= j < |list|
      ensures HandIndex(list, At(list[j])) == j
    {
      IndexUnique(list, j);
    }
  }

  lemma VisitSteps(n: nat, c: nat, k: nat)
    requires n >= 2 && c < n
    ensures Visit(n, c, 0) == NextIndex(n, c) && Visit(n, c, k + 1) == NextIndex(n, Visit(n, c, k))
  {
  }

  /** The loop's test, k pages on. */
  lemma BitsSeen(s: Vm, c: nat, k: nat)
    requires TablesOk(s) && |s.lru| >= 2 && c < |s.lru|
    ensures var f := s.lru[Visit(|s.lru|, c, k)];
            && f in s.pages && s.pages[f] in s.vmes && s.pages[f] in s.ptes
            && var pte := ClearAccessed(s.ptes, Visited(s.lru, c, k))[s.pages[f]];
               pte.accessed || s.vmes[s.pages[f]].pinned <==> !Stops(s.lru, c, AccessedFrames(s), PinnedFrames(s), k)
  {
    hide Visit, Visited, NoRepeats, HandOk;
  }

  lemma StopsOnce(list: seq<nat>, c: nat, accessed: set<nat>, pinned: set<nat>, k: nat, t: nat)
    requires |list| >= 2 && c < |list| && EndsAt(list, c, accessed, pinned, t) && k <= t
    ensures Stops(list, c, accessed, pinned, k) <==> k == t
  {
  }

  lemma LoopTest(s: Vm, c: nat, k: nat, t: nat)
    requires TablesOk(s) && |s.lru| >= 2 && c < |s.lru|
    requires EndsAt(s.lru, c, AccessedFrames(s), PinnedFrames(s), t) && k <= t
    ensures var f := s.lru[Visit(|s.lru|, c, k)];
            && f in s.pages && s.pages[f] in s.vmes && s.pages[f] in s.ptes
            && var pte := ClearAccessed(s.ptes, Visited(s.lru, c, k))[s.pages[f]];
               pte.accessed || s.vmes[s.pages[f]].pinned <==> k != t
  {
    hide *;
    BitsSeen(s, c, k);
    StopsOnce(s.lru, c, AccessedFrames(s), PinnedFrames(s), k, t);
  }

  lemma NothingCleared(s: Vm, c: nat)
    requires |s.lru| >= 2 && c < |s.lru|
    ensures ClearAccessed(s.ptes, Visited(s.lru, c, 0)) == s.ptes
  {
    assert Visited(s.lru, c, 0) == {};
  }

  lemma ClearOne(ptes: map<Key, Pte>, frames: set<nat>, k: Key, f: nat)
    requires k in ptes && ptes[k].present && ptes[k].frame == f
    requires forall j | j in ptes && ptes[j].present && ptes[j].frame == f :: j == k
    ensures var m := ClearAccessed(ptes, frames); m[k := m[k].(accessed := false)] == ClearAccessed(ptes, frames + {f})
  {
  }

  /** Clearing the bit of the k-th page visited. */
  lemma OneMoreCleared(s: Vm, c: nat, k: nat)
    requires TablesOk(s) && |s.lru| >= 2 && c < |s.lru|
    ensures var f := s.lru[Visit(|s.lru|, c, k)];
            var ptes := ClearAccessed(s.ptes, Visited(s.lru, c, k));
            && f in s.pages && s.pages[f] in s.ptes
            && ptes[s.pages[f] := ptes[s.pages[f]].(accessed := false)]
               == ClearAccessed(s.ptes, Visited(s.lru, c, k + 1))
  {
    hide Visit, NoRepeats, HandOk, ClearAccessed;
    var f := s.lru[Visit(|s.lru|, c, k)];
    assert f in s.pages;
    assert Visited(s.lru, c, k + 1) == Visited(s.lru, c, k) + {f};
    ClearOne(s.ptes, Visited(s.lru, c, k), s.pages[f], f);
  }

  lemma SearchState(s: Vm)
    requires Inv(s) && HasVictim(s)
    ensures TablesOk(s) && NoRepeats(s.lru) && HandOk(s.lru, s.hand) && |s.lru| >= 2
    ensures Victim(s) == s.lru[Visit(|s.lru|, HandIndex(s.lru, s.hand), StopTime(s))]
    ensures Spared(s) == Visited(s.lru, HandIndex(s.lru, s.hand), StopTime(s))
  {
  }

  /** An activation that does not return leaves the search to the next one. */
  lemma ReturnsLater(list: seq<nat>, hand: Hand, hand1: Hand, depth: nat)
    requires list != [] && HandOk(list, hand) && HandOk(list, hand1) && Activation(list, hand) == (hand1, false)
    requires depth >= 1
    ensures (exists n: nat :: n <= depth && ReturnsAt(list, hand, n)) <==>
            exists n: nat :: n <= depth - 1 && ReturnsAt(list, hand1, n)
  {
    hide Activation, HandOk;
    forall n: nat
      ensures HandAfter(list, hand, n + 1) == HandAfter(list, hand1, n)
    {
      HandShift(list, hand, hand1, n);
    }
    forall n: nat
      ensures ReturnsAt(list, hand, n + 1) <==> ReturnsAt(list, hand1, n)
    {
      ReturnsShift(list, hand, hand1, n);
    }
    assert !ReturnsAt(list, hand, 0);
    if n: nat :| n <= depth && ReturnsAt(list, hand, n) {
      assert n > 0 && ReturnsAt(list, hand, (n - 1) + 1);
      assert ReturnsAt(list, hand1, n - 1);
    }
    if n: nat :| n <= depth - 1 && ReturnsAt(list, hand1, n) {
      assert ReturnsAt(list, hand, n + 1);
    }
  }

  lemma {:induction false} HandShift(list: seq<nat>, hand: Hand, hand1: Hand, n: nat)
    requires list != [] && HandOk(list, hand) && HandOk(list, hand1) && Activation(list, hand).0 == hand1
    ensures HandAfter(list, hand, n + 1) == HandAfter(list, hand1, n)
  {
    hide Activation, HandOk;
    if n > 0 { HandShift(list, hand, hand1, n - 1); }
    assert HandAfter(list, hand, 0) == hand;
  }

  lemma ReturnsShift(list: seq<nat>, hand: Hand, hand1: Hand, n: nat)
    requires list != [] && HandOk(list, hand) && HandOk(list, hand1) && Activation(list, hand) == (hand1, false)
    ensures ReturnsAt(list, hand, n + 1) <==> ReturnsAt(list, hand1, n)
  {
    hide Activation, HandOk;
    forall m: nat
      ensures HandAfter(list, hand, m + 1) == HandAfter(list, hand1, m)
    {
      HandShift(list, hand, hand1, m);
    }
    assert HandAfter(list, hand, 0) == hand;
    if ReturnsAt(list, hand, n + 1) {
      forall m: nat | m < n
        ensures !Activation(list, HandAfter(list, hand1, m)).1
      {
        assert HandAfter(list, hand, m + 1) == HandAfter(list, hand1, m);
      }
      assert HandAfter(list, hand, n + 1) == HandAfter(list, hand1, n);
    }
    if ReturnsAt(list, hand1, n) {
      forall m: nat | m < n + 1
        ensures !Activation(list, HandAfter(list, hand, m)).1
      {
        if m > 0 { assert HandAfter(list, hand, (m - 1) + 1) == HandAfter(list, hand1, m - 1); }
      }
      assert HandAfter(list, hand, n + 1) == HandAfter(list, hand1, n);
    }
  }

  class VirtualMemory {
    var lru: seq<nat>
    var hand: Hand
    var pages: map<nat, Key>
    var vmes: map<Key, Vme>
    var ptes: map<Key, Pte>
    var frames: map<nat, Page>
    const swap: Swap
    var files: map<nat, FileData>
    var crashed: bool
    ghost var plain: map<Key, Page>

    constructor (swap: Swap, files: map<nat, FileData>)
      requires swap.Valid()
      ensures this.swap == swap
      ensures State() == Boot(swap.Space(), files)
    {
      this.swap, this.files := swap, files;
      lru, hand, pages, vmes, ptes, frames, crashed, plain := [], Null, map[], map[], map[], map[], false, map[];
    }

    ghost function State(): Vm
      requires swap.Valid()
      reads this, swap, swap.bitmap, swap.bitmap.bits, swap.dev, swap.dev.sectors
    {
      Vm(lru, hand, pages, vmes, ptes, frames, swap.Space(), files, crashed, plain)
    }

    /** The hand moves to the next page, or past the last one. */
    method AdvanceHand() returns (found: bool)
      requires lru != [] && HandOk(lru, hand)
      modifies this`hand
      ensures (hand, found) == Activation(lru, old(hand))
    {
      if hand == Null || hand == End {
        hand := At(lru[0]);
      }
      hand := After(lru, hand.page);
      found := hand != End;
    }

    /** get_next_lru_clock, which calls itself when the hand has passed the last page. It gives None
        when no page is listed; depth bounds the calls, one inside the other, that the stack takes. */
    method GetNextLruClock(depth: nat) returns (f: Option<nat>, returned: bool)
      requires HandOk(lru, hand)
      modifies this`hand
      decreases depth
      ensures HandOk(lru, hand)
      ensures lru == [] ==> f.None? && returned && hand == old(hand)
      ensures lru != [] ==> (returned <==> exists n: nat :: n <= depth && ReturnsAt(lru, old(hand), n))
      ensures lru != [] && returned ==> f.Some? && hand == At(f.value)
      ensures |lru| >= 2 && depth >= 1 ==> returned
      ensures |lru| >= 2 && NoRepeats(lru) && returned ==> f == Some(lru[NextIndex(|lru|, HandIndex(lru, old(hand)))])
    {
      if lru == [] {
        return None, true;
      }
      ghost var h := hand;
      ReturnsIff(lru, hand);
      if |lru| >= 2 && NoRepeats(lru) { NextVisit(lru, hand); }
      var found := AdvanceHand();
      if found {
        assert ReturnsAt(lru, h, 0);
        return Some(hand.page), true;
      }
      if depth == 0 {
        return None, false;
      }
      ghost var h1 := hand;
      f, returned := GetNextLruClock(depth - 1);
      ReturnsLater(lru, h, h1, depth);
    }

    /** del_page_from_lru_list. */
    method DelPage(f: nat)
      requires f in lru
      modifies this`lru, this`hand
      ensures lru == Without(old(lru), f)
      ensures hand == if old(hand) == At(f) then After(old(lru), f) else old(hand)
    {
      if hand == At(f) {
        hand := After(lru, f);
      }
      lru := Without(lru, f);
    }

    /** One turn of the search: the bit is cleared and the hand moves on. */
    method PassOver(f: nat, ghost c: nat, ghost k: nat) returns (next: nat)
      requires |lru| >= 2 && NoRepeats(lru) && c < |lru| && f == lru[Visit(|lru|, c, k)] && hand == At(f)
      requires f in pages && pages[f] in ptes
      modifies this`hand, this`ptes
      ensures ptes == old(ptes)[pages[f] := old(ptes)[pages[f]].(accessed := false)]
      ensures next == lru[Visit(|lru|, c, k + 1)] && hand == At(next)
    {
      hide Visit, HandIndex, NextIndex, HandOk, NoRepeats;
      ptes := ptes[pages[f] := ptes[pages[f]].(accessed := false)];
      HandAt(lru, Visit(|lru|, c, k));
      VisitSteps(|lru|, c, k);
      var r, _ := GetNextLruClock(1);
      next := r.value;
    }

    /** The search loop of try_to_free_pages. */
    method FindVictim() returns (f: nat)
      requires swap.Valid() && Inv(State()) && HasVictim(State())
      modifies this`hand, this`ptes
      ensures f == Victim(old(State())) && hand == At(f) && ptes == ClearAccessed(old(ptes), Spared(old(State())))
    {
      hide Inv, TablesOk, EntriesOk, SwapOk, PagesOk, Visit, Visited, Stops, HandIndex, IndexOf, EndsAt, HasVictim;
      hide HasCandidate;
      hide Victim, Spared, StopTime, ClearAccessed, AccessedFrames, PinnedFrames, NextIndex, After, HandOk, NoRepeats;
      hide Swap.Valid, Swap.Space, SlotOf, Flat;
      ghost var s := State();
      SearchState(s);
      ghost var n, c, t := |lru|, HandIndex(lru, hand), StopTime(s);
      ghost var k: nat := 0;
      var next, _ := GetNextLruClock(1);
      f := next.value;
      VisitSteps(n, c, 0);
      NothingCleared(s, c);
      LoopTest(s, c, 0, t);
      while ptes[pages[f]].accessed || vmes[pages[f]].pinned
        invariant k <= t && f == lru[Visit(n, c, k)] && hand == At(f)
        invariant ptes == ClearAccessed(s.ptes, Visited(lru, c, k))
        invariant f in pages && pages[f] in vmes && pages[f] in ptes
        invariant ptes[pages[f]].accessed || vmes[pages[f]].pinned <==> k != t
        decreases t - k
      {
        OneMoreCleared(s, c, k);
        f := PassOver(f, c, k);
        k := k + 1;
        LoopTest(s, c, k, t);
      }
    }

    /** file_write_at from the user address of page k, in the running thread's address space. */
    method FileWriteAt(k: Key, current: nat)
      requires swap.Valid() && k in vmes
      modifies this`files, this`crashed
      ensures State() == WriteBack(old(State()), k, current)
    {
      var v := vmes[k];
      if v.file !in files {
        crashed := true;
        return;
      }
      var d := files[v.file];
      var n := if d.denied then 0 else TransferCount(v.readBytes, v.offset, |d.bytes|);
      if n == 0 {
        return;
      }
      var seen := Key(current, k.vpage);
      if seen !in ptes || !ptes[seen].present || ptes[seen].frame !in frames || n > 4096 {
        crashed := true;
        return;
      }
      var data := frames[ptes[seen].frame][..n];
      files := files[v.file := d.(bytes := d.bytes[..v.offset] + data + d.bytes[v.offset + n..])];
    }

    method PutInSwap(k: Key, f: nat)
      requires swap.Valid() && k in vmes && f in frames
      modifies this`vmes, swap.bitmap.bits, swap.dev.sectors
      ensures State() == ToSwap(old(State()), k, f)
    {
      hide VmModel.SwapOut;
      var slot := swap.SwapOut(frames[f]);
      vmes := vmes[k := vmes[k].(kind := VmAnon, slot := slot)];
    }

    /** __free_page. */
    method FreePage(f: nat)
      requires swap.Valid() && Listed(State(), f)
      modifies this`lru, this`hand, this`pages, this`ptes, this`frames
      ensures lru == Without(old(lru), f) && hand == if old(hand) == At(f) then After(old(lru), f) else old(hand)
      ensures ptes == old(ptes)[old(pages)[f] := old(ptes)[old(pages)[f]].(present := false)]
      ensures pages == old(pages) - {f} && frames == old(frames) - {f}
    {
      DelPage(f);
      var k := pages[f];
      ptes := ptes[k := ptes[k].(present := false)];
      pages, frames := pages - {f}, frames - {f};
    }

    /** The switch on the entry's type. */
    method SavePage(f: nat, current: nat)
      requires swap.Valid() && Listed(State(), f)
      modifies this`vmes, this`files, this`crashed, swap.bitmap.bits, swap.dev.sectors
      ensures State() == Save(old(State()), f, current)
    {
      hide ToSwap, WriteBack;
      var k := pages[f];
      match vmes[k].kind {
        case VmBin => if ptes[k].dirty { PutInSwap(k, f); }
        case VmFile => if ptes[k].dirty { FileWriteAt(k, current); }
        case VmAnon => PutInSwap(k, f);
      }
    }

    /** The rest: the entry is no longer loaded, the hand moves on and the frame is given up. */
    method DropPage(f: nat)
      requires swap.Valid() && Listed(State(), f) && hand == At(f) && NoRepeats(lru)
      modifies this`lru, this`hand, this`pages, this`vmes, this`ptes, this`frames
      ensures State() == Release(old(State()), f)
    {
      hide Without, After, NoRepeats;
      AfterOther(lru, f);
      var k := pages[f];
      vmes := vmes[k := vmes[k].(loaded := false)];
      hand := After(lru, hand.page);
      FreePage(f);
    }

    method TryToFreePages(current: nat)
      requires swap.Valid() && Inv(State()) && HasVictim(State())
      modifies this`lru, this`hand, this`pages, this`vmes, this`ptes, this`frames, this`files, this`crashed
      modifies swap.bitmap.bits, swap.dev.sectors
      ensures Listed(old(State()), Victim(old(State()))) && State() == Evict(old(State()), current)
    {
      hide Inv, HasVictim, Victim, Spared, Save, Release, Without, After, NoRepeats, Listed;
      ghost var s := State();
      SearchKeeps(s);
      VictimListed(s);
      SearchState(s);
      var f := FindVictim();
      SaveShape(State(), f, current);
      SavePage(f, current);
      DropPage(f);
    }

    static lemma SaveShape(s: Vm, f: nat, current: nat)
      requires Listed(s, f)
      ensures var s' := Save(s, f, current);
              && s'.lru == s.lru && s'.hand == s.hand && s'.pages == s.pages && s'.ptes == s.ptes
                 && s'.frames == s.frames
              && s'.vmes.Keys == s.vmes.Keys && Listed(s', f)
    {
      hide ToSwap, WriteBack;
      ToSwapFrame(s, s.pages[f], f);
      WriteBackFrame(s, s.pages[f], current);
    }

    static lemma HandAt(list: seq<nat>, i: nat)
      requires i < |list| && NoRepeats(list)
      ensures HandOk(list, At(list[i])) && HandIndex(list, At(list[i])) == i
    {
      IndexUnique(list, i);
    }
  }
}
