/** Eviction keeps pages recoverable, exactly when it does, and runs of the paging system look
    like plain memory. */
module VmTheorems {
  import opened Lists
  import opened Options
  import opened Bitmap
  import opened Bytes
  import opened Clock
  import opened VmModel
  import opened VmInvariant
  import InodeIO

  // ---------------------------------------------------------------
  // try_to_free_pages
  // ---------------------------------------------------------------

  /** The page at f goes to swap. */
  ghost predicate NeedsSlot(s: Vm, f: nat)
    requires Listed(s, f)
  {
    s.vmes[s.pages[f]].kind == VmAnon || (s.vmes[s.pages[f]].kind == VmBin && s.ptes[s.pages[f]].dirty)
  }

  /** The page at f is written back to its file. */
  ghost predicate NeedsWrite(s: Vm, f: nat)
    requires Listed(s, f)
  {
    s.vmes[s.pages[f]].kind == VmFile && s.ptes[s.pages[f]].dirty
  }

  /** Swap has room when it is needed, and a mapped file's dirty page belongs to the running thread
      and to a file that may be written. */
  ghost predicate CanSave(s: Vm, f: nat, current: nat)
    requires Listed(s, f)
  {
    && (NeedsSlot(s, f) ==> SlotFree(s.swap))
    && (NeedsWrite(s, f) ==>
          && s.pages[f].thread == current
          && s.vmes[s.pages[f]].file in s.files && !s.files[s.vmes[s.pages[f]].file].denied)
  }

  lemma SaveKeeps(s: Vm, f: nat, current: nat)
    requires Inv(s) && Listed(s, f) && CanSave(s, f, current)
    ensures var s' := Save(s, f, current);
            && Inv(s') && Safe(s', f) && Listed(s', f) && s'.lru == s.lru && s'.pages == s.pages && s'.hand == s.hand
            && s'.plain == s.plain && s'.frames == s.frames && s'.ptes == s.ptes && s'.vmes.Keys == s.vmes.Keys
            && Kept(s'.vmes[s.pages[f]]) == Kept(s.vmes[s.pages[f]])
            && (forall j | j in s.vmes && j != s.pages[f] :: s'.vmes[j] == s.vmes[j])
  {
    hide Inv, Safe, ToSwap, WriteBack, SlotFree;
    match s.vmes[s.pages[f]].kind
    case VmBin => if s.ptes[s.pages[f]].dirty { ToSwapKeeps(s, f); ToSwapFrame(s, s.pages[f], f); }
        else { CleanIsSafe(s, f); }
    case VmFile =>
      if s.ptes[s.pages[f]].dirty { WriteBackKeeps(s, f); WriteBackFrame(s, s.pages[f], current); }
          else { CleanIsSafe(s, f); }
    case VmAnon => ToSwapKeeps(s, f); ToSwapFrame(s, s.pages[f], f);
  }

  lemma ToSwapFrame(s: Vm, k: Key, f: nat)
    requires k in s.vmes && f in s.frames
    ensures var s' := ToSwap(s, k, f);
            && s'.plain == s.plain && s'.frames == s.frames && s'.ptes == s.ptes && s'.vmes.Keys == s.vmes.Keys
            && s'.lru == s.lru && s'.hand == s.hand && s'.pages == s.pages
            && (s.vmes[k].kind != VmFile ==> Kept(s'.vmes[k]) == Kept(s.vmes[k]))
            && (forall j | j in s.vmes && j != k :: s'.vmes[j] == s.vmes[j])
  {
  }

  lemma WriteBackFrame(s: Vm, k: Key, current: nat)
    requires k in s.vmes
    ensures var s' := WriteBack(s, k, current);
            && s'.plain == s.plain && s'.frames == s.frames && s'.ptes == s.ptes && s'.vmes == s.vmes
               && s'.swap == s.swap
            && s'.lru == s.lru && s'.hand == s.hand && s'.pages == s.pages
  {
  }

  lemma VictimListed(s: Vm)
    requires Inv(s) && HasVictim(s)
    ensures Listed(s, Victim(s))
  {
    hide EntriesOk, SwapOk, PagesOk, PinnedFrames;
  }

  lemma SearchFrame(s: Vm)
    requires HasVictim(s)
    ensures var s' := Search(s);
            && s'.pages == s.pages && s'.vmes == s.vmes && s'.plain == s.plain && s'.frames == s.frames
               && s'.files == s.files
            && s'.swap == s.swap && s'.lru == s.lru && s'.ptes.Keys == s.ptes.Keys
            && forall k | k in s.ptes ::
                          s'.ptes[k].dirty == s.ptes[k].dirty && s'.ptes[k].frame == s.ptes[k].frame
                          && s'.ptes[k].present == s.ptes[k].present
  {
  }

  lemma ReleaseFrame(s: Vm, f: nat)
    requires Listed(s, f)
    ensures var s' := Release(s, f);
            && s'.plain == s.plain && s'.files == s.files && s'.swap == s.swap && s'.vmes.Keys == s.vmes.Keys
            && s'.vmes[s.pages[f]] == s.vmes[s.pages[f]].(loaded := false) && s'.frames == s.frames - {f}
            && (forall j | j in s.vmes && j != s.pages[f] :: s'.vmes[j] == s.vmes[j])
  {
  }

  /** Evicting a page frees its frame, keeps the invariant, and leaves the page's bytes to be
      rebuilt by its entry; every other page, loaded or evicted, is as it was. */
  lemma EvictKeeps(s: Vm, current: nat)
    requires Inv(s) && HasVictim(s)
    ensures Listed(s, Victim(s))
    ensures CanSave(s, Victim(s), current) ==>
              var f := Victim(s);
              var k := s.pages[f];
              var s' := Evict(s, current);
              && Inv(s') && s'.plain == s.plain && s'.frames == s.frames - {f} && s'.vmes.Keys == s.vmes.Keys
              && !s.vmes[k].pinned && !s'.vmes[k].loaded
              && Rebuild(s'.vmes[k], s'.files, s'.swap).Some?
              && Agree(s'.vmes[k], Rebuild(s'.vmes[k], s'.files, s'.swap).value, s.frames[f])
              && (forall j | j in s.vmes && j != k :: s'.vmes[j] == s.vmes[j])
  {
    hide Inv, Safe, Search, Save, Release, CanSave, PageOk, Rebuild, Agree, Spared, Victim, SlotFree, PinnedFrames;
    VictimListed(s);
    if CanSave(s, Victim(s), current) {
      var f := Victim(s);
      var k := s.pages[f];
      SearchKeeps(s);
      SearchFrame(s);
      var s1 := Search(s);
      CanSaveStill(s, s1, f, current);
      SaveKeeps(s1, f, current);
      var s2 := Save(s1, f, current);
      ReleaseKeeps(s2, f);
      ReleaseFrame(s2, f);
      var s' := Release(s2, f);
      NotPinned(s);
      Recovered(s, s', f, k);
    }
  }

  lemma CanSaveStill(s: Vm, s1: Vm, f: nat, current: nat)
    requires Listed(s, f) && CanSave(s, f, current) && s1.pages == s.pages && s1.vmes == s.vmes
             && s1.files == s.files && s1.swap == s.swap
    requires Listed(s1, f) && s1.ptes.Keys == s.ptes.Keys && s1.ptes[s.pages[f]].dirty == s.ptes[s.pages[f]].dirty
    ensures CanSave(s1, f, current)
  {
  }

  lemma NotPinned(s: Vm)
    requires HasVictim(s) && Listed(s, Victim(s))
    ensures !s.vmes[s.pages[Victim(s)]].pinned
  {
    hide Victim;
    assert Victim(s) !in PinnedFrames(s);
  }

  /** Memory and its rebuilding agree because both agree with plain. */
  lemma Recovered(s: Vm, s': Vm, f: nat, k: Key)
    requires Inv(s) && Inv(s') && Listed(s, f) && s.pages[f] == k && k in s'.vmes && !s'.vmes[k].loaded
             && s'.plain == s.plain
    requires Kept(s'.vmes[k]) == Kept(s.vmes[k])
    ensures Rebuild(s'.vmes[k], s'.files, s'.swap).Some?
    ensures Agree(s'.vmes[k], Rebuild(s'.vmes[k], s'.files, s'.swap).value, s.frames[f])
  {
  }

  // ---------------------------------------------------------------
  // Where the hand goes on
  // ---------------------------------------------------------------

  lemma {:induction false} WithoutSlices(list: seq<nat>, p: nat)
    requires p in list
    ensures Without(list, p) == list[..IndexOf(list, p)] + list[IndexOf(list, p) + 1..]
  {
    if list[0] != p {
      var i := IndexOf(list[1..], p);
      WithoutSlices(list[1..], p);
      assert list[..i + 1] == [list[0]] + list[1..][..i];
    }
  }

  lemma EvictList(s: Vm, current: nat)
    requires HasVictim(s) && Listed(s, Victim(s))
    ensures var s', f := Evict(s, current), Victim(s);
            s'.lru == Without(s.lru, f) && s'.hand == After(s.lru, f)
  {
    hide Without, After, Victim, Spared, PinnedFrames;
    SaveList(Search(s), Victim(s), current);
  }

  lemma SaveList(s: Vm, f: nat, current: nat)
    requires Listed(s, f)
    ensures var s' := Save(s, f, current);
            Listed(s', f) && s'.lru == s.lru && s'.hand == s.hand
  {
  }

  /** The hand on the page behind the one taken out at i, or at the end, and the sweep from there. */
  ghost predicate GoesOn(list: seq<nat>, i: nat, list': seq<nat>, hand': Hand) {
    var n := |list|;
    && 1 <= i < n && list' == list[..i] + list[i + 1..]
    && hand' == (if i + 1 < n then At(list[i + 1]) else End)
    && (n >= 3 ==>
          && HandOk(list', hand')
          && var c := HandIndex(list', hand');
             && list'[Visit(n - 1, c, 0)] == (if i + 2 < n then list[i + 2] else list'[1])
             && (i + 1 < n ==> list'[Visit(n - 1, c, n - 3)] == list[i + 1]))
  }

  lemma SweepGoesOn(list: seq<nat>, i: nat)
    requires NoRepeats(list) && 1 <= i < |list|
    ensures GoesOn(list, i, list[..i] + list[i + 1..], if i + 1 < |list| then At(list[i + 1]) else End)
  {
    hide NoRepeats;
    var n, rest := |list|, list[..i] + list[i + 1..];
    if i + 1 < n {
      WithoutAt(list, i);
      assert rest[i] == list[i + 1];
      IndexUnique(rest, i);
      if n >= 3 { FirstSweep(n - 1, i, n - 3); }
    }
  }

  lemma WithoutAt(list: seq<nat>, i: nat)
    requires NoRepeats(list) && i < |list|
    ensures NoRepeats(list[..i] + list[i + 1..])
  {
  }

  /** An eviction takes its page out of the list and leaves the hand on the page behind it, or at the
      end. The next search moves the hand before it looks: it begins with the page after that one, or
      past the head if there is none, and comes to the page behind the evicted one last. */
  lemma NextSearchBegins(s: Vm, current: nat)
    requires Inv(s) && HasVictim(s)
    ensures Listed(s, Victim(s))
    ensures exists i :: 0 <= i < |s.lru| && s.lru[i] == Victim(s)
              && GoesOn(s.lru, i, Evict(s, current).lru, Evict(s, current).hand)
  {
    hide Inv, Evict, Victim, GoesOn, NoRepeats;
    VictimListed(s);
    EvictList(s, current);
    WithoutSlices(s.lru, Victim(s));
    var i := VictimIndex(s);
    IndexUnique(s.lru, i);
    SweepGoesOn(s.lru, i);
  }

  lemma VictimIndex(s: Vm) returns (i: nat)
    requires Inv(s) && HasVictim(s)
    ensures 1 <= i < |s.lru| && s.lru[i] == Victim(s) && NoRepeats(s.lru)
  {
    hide EntriesOk, SwapOk, PagesOk, PinnedFrames, AccessedFrames, Visit;
    i := Visit(|s.lru|, HandIndex(s.lru, s.hand), StopTime(s));
  }

  // ---------------------------------------------------------------
  // Exactly when a page survives
  // ---------------------------------------------------------------

  /** A page that goes to swap can be rebuilt just when a slot was free: with none, swap_out reports
      failure, nobody looks, and the page is gone. */
  lemma SwapFullLosesPage(s: Vm, f: nat)
    requires Inv(s) && Listed(s, f) && NeedsSlot(s, f)
    ensures var k := s.pages[f];
            var s' := Release(Save(s, f, k.thread), f);
            && (Rebuild(s'.vmes[k], s'.files, s'.swap) == Some(s.frames[f]) <==> SlotFree(s.swap))
            && (!SlotFree(s.swap) ==> Rebuild(s'.vmes[k], s'.files, s'.swap) == None)
  {
    hide TablesOk, EntriesOk, PagesOk;
    SwapOutFinds(s.swap, s.frames[f]);
  }

  /** What a dirty page of a mapped file leaves in the file. */
  ghost predicate FileHolds(s: Vm, v: Vme, page: Page)
  {
    v.file in s.files && Backed(v, s.files[v.file].bytes) && Agree(v, Image(v, s.files[v.file].bytes), page)
  }

  /** A mapped file's dirty page survives just when the thread that happens to be running sees its
      bytes at the same address and the file may be written, or the file held them already. */
  lemma FilePageSurvives(s: Vm, f: nat, current: nat)
    requires Inv(s) && Listed(s, f) && NeedsWrite(s, f) && s.vmes[s.pages[f]].readBytes > 0
    ensures var k := s.pages[f];
            var v := s.vmes[k];
            var s' := Save(s, f, current);
            && v.file in s.files
            && (!s'.crashed && FileHolds(s', v, s.frames[f]) <==>
                  if s.files[v.file].denied then FileHolds(s, v, s.frames[f])
                  else
                    UserBytes(s, current, k.vpage).Some? && Agree(v, UserBytes(s, current, k.vpage).value, s.frames[f]))
            && (current == k.thread && !s.files[v.file].denied ==> !s'.crashed && FileHolds(s', v, s.frames[f]))
  {
    hide TablesOk, PagesOk, SwapOk, EntriesOk, Image, Patch, UserBytes;
    var k := s.pages[f];
    var v := s.vmes[k];
    EntryBacked(s.vmes, s.files, k);
    OwnBytes(s, f);
    var d := s.files[v.file];
    var seen := UserBytes(s, current, k.vpage);
    if !d.denied && seen.Some? {
      ImageAfterWrite(v, d.bytes, seen.value);
      ImageHead(v, Patch(d.bytes, v.offset, seen.value[..v.readBytes]), seen.value, s.frames[f]);
    }
  }

  lemma ImageHead(v: Vme, bytes: seq<byte>, seen: Page, page: Page)
    requires v.kind == VmFile && v.readBytes <= 4096 && Backed(v, bytes)
             && Image(v, bytes)[..v.readBytes] == seen[..v.readBytes]
    ensures Agree(v, Image(v, bytes), page) <==> Agree(v, seen, page)
  {
    hide Image;
  }

  // ---------------------------------------------------------------
  // Runs
  // ---------------------------------------------------------------

  datatype Step =
    | Insert(k: Key, v: Vme)
    | Zero(k: Key, f: nat, pinned: bool)
    | Load(k: Key, f: nat)
    | Use(k: Key, at: nat, w: seq<byte>)
    | EvictBy(current: nat)
    | Unmap(k: Key)

  /** delete_vme: the entry goes, and its frame if it has one. */
  ghost function Delete(s: Vm, k: Key): Vm
    requires k in s.vmes
  {
    var s1 := if k in s.ptes && s.ptes[k].present && Listed(s, s.ptes[k].frame) && s.pages[s.ptes[k].frame] == k
              then Release(s, s.ptes[k].frame) else s;
    s1.(vmes := s1.vmes - {k}, plain := s1.plain - {k})
  }

  ghost predicate Legal(s: Vm, st: Step) {
    match st
    case Insert(k, v) =>
      && v.kind != VmAnon && !v.loaded && v.file in s.files && Backed(v, s.files[v.file].bytes)
      && forall j | j in s.vmes && j != k && s.vmes[j].kind != VmAnon
         && (v.kind == VmFile || s.vmes[j].kind == VmFile) ::
           RangesApart(v, s.vmes[j]) && RangesApart(s.vmes[j], v)
    case Zero(k, f, _) => k !in s.vmes && f !in s.frames
    case Load(k, f) => k in s.vmes && !s.vmes[k].loaded && f !in s.frames
    case Use(k, at, w) => k in s.vmes && s.vmes[k].loaded && (w != [] ==> s.vmes[k].writable) && at + |w| <= 4096
    case EvictBy(current) => HasVictim(s) && Listed(s, Victim(s)) && CanSave(s, Victim(s), current)
    case Unmap(k) => k in s.vmes
  }

  ghost function Do(s: Vm, st: Step): Vm
    requires Inv(s) && Legal(s, st)
  {
    match st
    case Insert(k, v) => InsertVme(s, k, v).0
    case Zero(k, f, pinned) => MapZero(s, k, f, pinned)
    case Load(k, f) => PageIn(s, k, f)
    case Use(k, at, w) => UseParts(s, k); Access(s, k, at, w)
    case EvictBy(current) => Evict(s, current)
    case Unmap(k) => Delete(s, k)
  }

  lemma UseParts(s: Vm, k: Key)
    requires Inv(s) && k in s.vmes && s.vmes[k].loaded
    ensures k in s.ptes && s.ptes[k].present && s.ptes[k].frame in s.frames && k in s.plain
  {
    hide EntriesOk, SwapOk;
    PageParts(s, k);
  }

  lemma InsertKeeps(s: Vm, k: Key, v: Vme)
    requires Inv(s) && Legal(s, Insert(k, v))
    ensures Inv(InsertVme(s, k, v).0) && (InsertVme(s, k, v).1 <==> k !in s.vmes)
    ensures k in s.vmes ==> InsertVme(s, k, v).0 == s
  {
    hide Rebuild, Agree, PageOk, RangesApart, Image, TablesOk, SwapOk, HasVictim, Backed;
    if k !in s.vmes {
      LegalRebuilds(s, v);
      var s' := InsertVme(s, k, v).0;
      assert s'.vmes == s.vmes[k := v] && s'.plain == s.plain[k := Rebuild(v, s.files, s.swap).value];
      InsertTables(s, s', k, v);
      InsertSwap(s.vmes, s.swap, k, v);
      forall j | j in s'.vmes
        ensures PageOk(s', j)
      {
        if j != k { PageParts(s, j); PageFrame(s, s', j); } else { FreshPage(s', k); }
      }
    }
  }

  lemma LegalRebuilds(s: Vm, v: Vme)
    requires v.kind != VmAnon && v.file in s.files && Backed(v, s.files[v.file].bytes)
    ensures Rebuild(v, s.files, s.swap).Some?
  {
  }

  lemma InsertTables(s: Vm, s': Vm, k: Key, v: Vme)
    requires TablesOk(s) && k !in s.vmes && !v.loaded && s'.vmes == s.vmes[k := v]
    requires s'.lru == s.lru && s'.hand == s.hand && s'.pages == s.pages && s'.frames == s.frames && s'.ptes == s.ptes
    ensures TablesOk(s')
  {
  }

  lemma InsertSwap(vmes: map<Key, Vme>, sp: SwapSpace, k: Key, v: Vme)
    requires SwapOk(vmes, sp) && k !in vmes && (v.kind != VmAnon || v.loaded)
    ensures SwapOk(vmes[k := v], sp)
  {
    forall j
      ensures InSwap(vmes[k := v], j) <==> InSwap(vmes, j)
    {
    }
  }

  lemma FreshPage(s: Vm, k: Key)
    requires k in s.vmes && !s.vmes[k].loaded && Rebuild(s.vmes[k], s.files, s.swap).Some?
    requires k in s.plain && s.plain[k] == Rebuild(s.vmes[k], s.files, s.swap).value
    ensures PageOk(s, k)
  {
  }

  lemma ListTables(s: Vm, s': Vm, k: Key, f: nat)
    requires TablesOk(s) && f !in s.frames && k in s'.vmes && s'.vmes[k].loaded && (k in s.vmes ==> !s.vmes[k].loaded)
    requires s'.lru == s.lru + [f] && s'.hand == s.hand && s'.pages == s.pages[f := k]
             && s'.frames.Keys == s.frames.Keys + {f}
    requires s'.ptes == s.ptes[k := Pte(f, true, false, false)]
    requires s'.vmes.Keys == s.vmes.Keys + {k} && forall j | j in s.vmes && j != k :: s'.vmes[j] == s.vmes[j]
    ensures TablesOk(s')
  {
    hide NoRepeats, HandOk;
    AppendOk(s.lru, s.hand, f);
    forall g | g in s'.pages
      ensures s'.pages[g] in s'.vmes && s'.vmes[s'.pages[g]].loaded
      ensures s'.pages[g] in s'.ptes && s'.ptes[s'.pages[g]].present && s'.ptes[s'.pages[g]].frame == g
    {
      if g != f { assert g in s.pages && s.pages[g] != k; }
    }
    forall j | j in s'.ptes && s'.ptes[j].present
      ensures s'.ptes[j].frame in s'.pages && s'.pages[s'.ptes[j].frame] == j
    {
      if j != k { assert j in s.ptes && s.ptes[j].frame in s.pages && s.ptes[j].frame in s.lru; }
    }
    forall j | j in s'.vmes && s'.vmes[j].loaded
      ensures j in s'.ptes && s'.ptes[j].present
    {
      if j != k { assert j in s.vmes && s.vmes[j].loaded; }
    }
  }

  lemma AppendOk(list: seq<nat>, hand: Hand, f: nat)
    requires NoRepeats(list) && HandOk(list, hand) && f !in list
    ensures NoRepeats(list + [f]) && HandOk(list + [f], hand)
    ensures forall g :: g in list + [f] <==> g in list || g == f
  {
  }

  lemma ZeroKeeps(s: Vm, k: Key, f: nat, pinned: bool)
    requires Inv(s) && k !in s.vmes && f !in s.frames
    ensures Inv(MapZero(s, k, f, pinned))
  {
    hide Rebuild, Agree, PageOk, RangesApart, Image, TablesOk, SwapOk, Backed;
    var s' := MapZero(s, k, f, pinned);
    ListTables(s, s', k, f);
    InsertSwap(s.vmes, s.swap, k, s'.vmes[k]);
    forall j | j in s'.vmes
      ensures PageOk(s', j)
    {
      if j != k { PageParts(s, j); PageFrame(s, s', j); } else { ZeroPage(s', k); }
    }
  }

  lemma ZeroPage(s: Vm, k: Key)
    requires k in s.vmes && s.vmes[k].loaded && s.vmes[k].kind == VmAnon && k in s.ptes
             && s.ptes[k].frame in s.frames && k in s.plain
    requires s.frames[s.ptes[k].frame] == s.plain[k]
    ensures PageOk(s, k)
  {
  }

  /** swap_in empties one slot and leaves the others. */
  lemma LoadSwap(vmes: map<Key, Vme>, files: map<nat, FileData>, sp: SwapSpace, k: Key)
    requires SwapOk(vmes, sp) && k in vmes && !vmes[k].loaded
    ensures var v := vmes[k];
            var sp' := if v.kind == VmAnon then SwapIn(sp, v.slot).0 else sp;
            && SwapOk(vmes[k := v.(loaded := true)], sp')
            && forall j | j in vmes && j != k && !vmes[j].loaded ::
                 Rebuild(vmes[j], files, sp') == Rebuild(vmes[j], files, sp)
  {
    hide Image, Backed;
    var v := vmes[k];
    var sp' := if v.kind == VmAnon then SwapIn(sp, v.slot).0 else sp;
    var vmes' := vmes[k := v.(loaded := true)];
    forall j
      ensures InSwap(vmes', j) ==> InSwap(vmes, j) && vmes'[j] == vmes[j] && j != k
    {
    }
    forall j | j in vmes && j != k && !vmes[j].loaded
      ensures Rebuild(vmes[j], files, sp') == Rebuild(vmes[j], files, sp)
    {
      if vmes[j].kind == VmAnon { assert InSwap(vmes, j); if v.kind == VmAnon { assert InSwap(vmes, k); } }
    }
  }

  /** A page that comes in holds what it held when it went out, and no other page is disturbed. */
  lemma LoadKeeps(s: Vm, k: Key, f: nat)
    requires Inv(s) && k in s.vmes && !s.vmes[k].loaded && f !in s.frames
    ensures k in s.plain
    ensures var s' := PageIn(s, k, f);
            Inv(s') && s'.plain == s.plain && f in s'.frames && Agree(s.vmes[k], s'.frames[f], s.plain[k])
  {
    hide Rebuild, Agree, PageOk, RangesApart, Image, TablesOk, SwapOk, Backed, SwapIn;
    PageParts(s, k);
    Rebuilds(s, k);
    LoadSwap(s.vmes, s.files, s.swap, k);
    var s' := PageIn(s, k, f);
    ListTables(s, s', k, f);
    EntriesStay(s.vmes, s.files, k, s'.vmes[k]);
    forall j | j in s'.vmes
      ensures PageOk(s', j)
    {
      PageParts(s, j);
      if j == k {
        LoadedPage(s, s', k, f);
      } else {
        if s.vmes[j].kind != VmAnon { RebuildFromFile(s.vmes[j], s.files, s.swap, s'.swap); }
        PageFrame(s, s', j);
      }
    }
  }

  lemma EntriesStay(vmes: map<Key, Vme>, files: map<nat, FileData>, k: Key, v: Vme)
    requires EntriesOk(vmes, files) && k in vmes && v == vmes[k].(loaded := v.loaded)
    ensures EntriesOk(vmes[k := v], files)
  {
  }

  lemma Rebuilds(s: Vm, k: Key)
    requires k in s.vmes && !s.vmes[k].loaded && PageOk(s, k)
    ensures k in s.plain && Rebuild(s.vmes[k], s.files, s.swap).Some?
    ensures Agree(s.vmes[k], Rebuild(s.vmes[k], s.files, s.swap).value, s.plain[k])
  {
  }

  lemma LoadedPage(s: Vm, s': Vm, k: Key, f: nat)
    requires k in s.vmes && !s.vmes[k].loaded && PageOk(s, k) && k in s.plain && s'.plain == s.plain
    requires k in s'.vmes && s'.vmes[k] == s.vmes[k].(loaded := true) && s'.files == s.files
    requires k in s'.ptes && s'.ptes[k] == Pte(f, true, false, false) && f in s'.frames
    requires Rebuild(s.vmes[k], s.files, s.swap) == Some(s'.frames[f])
    ensures PageOk(s', k)
  {
    hide Zeros, SwapIn;
  }

  lemma UseKeeps(s: Vm, k: Key, at: nat, w: seq<byte>)
    requires Inv(s) && k in s.vmes && s.vmes[k].loaded && at + |w| <= 4096
    requires k in s.ptes && s.ptes[k].present && s.ptes[k].frame in s.frames && k in s.plain
    ensures Inv(Access(s, k, at, w))
  {
    hide Rebuild, Agree, PageOk, RangesApart, Image, TablesOk, SwapOk, Backed, Patch, EntriesOk;
    var s' := Access(s, k, at, w);
    UseTables(s, k, at, w);
    forall j | j in s'.vmes
      ensures PageOk(s', j)
    {
      PageParts(s, j);
      if j == k {
        UsedPage(s, k, at, w);
      } else {
        OtherFrame(s, j, k);
        PageFrame(s, s', j);
      }
    }
  }

  lemma OtherFrame(s: Vm, j: Key, k: Key)
    requires TablesOk(s) && j in s.vmes && k in s.vmes && j != k && s.vmes[k].loaded
    ensures s.vmes[j].loaded ==> j in s.ptes && k in s.ptes && s.ptes[j].frame != s.ptes[k].frame
  {
  }

  lemma UseTables(s: Vm, k: Key, at: nat, w: seq<byte>)
    requires TablesOk(s) && k in s.vmes && s.vmes[k].loaded && at + |w| <= 4096
    requires k in s.ptes && s.ptes[k].present && s.ptes[k].frame in s.frames && k in s.plain
    ensures TablesOk(Access(s, k, at, w))
  {
    hide Patch;
  }

  lemma UsedPage(s: Vm, k: Key, at: nat, w: seq<byte>)
    requires k in s.vmes && s.vmes[k].loaded && PageOk(s, k) && at + |w| <= 4096
    requires k in s.ptes && s.ptes[k].present && s.ptes[k].frame in s.frames && k in s.plain
    ensures PageOk(Access(s, k, at, w), k)
  {
    hide Rebuild, Patch;
    var v := s.vmes[k];
    var page := s.frames[s.ptes[k].frame];
    SamePrefixPatched(page, s.plain[k], at, w, Kept(v));
    if w == [] {
      PatchNothing(page, at, w);
      PatchNothing(s.plain[k], at, w);
    }
  }

  lemma SamePrefixPatched(a: seq<byte>, b: seq<byte>, at: nat, w: seq<byte>, n: nat)
    requires |a| == |b| && at + |w| <= |a| && n <= |a| && a[..n] == b[..n]
    ensures Patch(a, at, w)[..n] == Patch(b, at, w)[..n]
  {
    forall i | 0 <= i < n
      ensures Patch(a, at, w)[i] == Patch(b, at, w)[i]
    {
      PatchAt(a, at, w, i);
      PatchAt(b, at, w, i);
      assert a[..n][i] == b[..n][i];
    }
  }

  lemma UnmapKeeps(s: Vm, k: Key)
    requires Inv(s) && k in s.vmes
    ensures Inv(Delete(s, k))
  {
    hide Rebuild, Agree, PageOk, RangesApart, Image, SwapOk, Backed, EntriesOk, Release, TablesOk;
    var s' := Delete(s, k);
    PageParts(s, k);
    DeleteTables(s, k);
    DeleteFrame(s, k);
    DeleteEntries(s.vmes, s.files, s.swap, k);
    forall j | j in s'.vmes
      ensures PageOk(s', j)
    {
      PageParts(s, j);
      if s.vmes[k].loaded { OtherFrame(s, j, k); }
      PageFrame(s, s', j);
    }
  }

  lemma DeleteEntries(vmes: map<Key, Vme>, files: map<nat, FileData>, sp: SwapSpace, k: Key)
    requires EntriesOk(vmes, files) && SwapOk(vmes, sp)
    ensures EntriesOk(vmes - {k}, files) && SwapOk(vmes - {k}, sp)
  {
    forall j
      ensures InSwap(vmes - {k}, j) ==> InSwap(vmes, j) && (vmes - {k})[j] == vmes[j]
    {
    }
  }

  lemma DeleteTables(s: Vm, k: Key)
    requires TablesOk(s) && k in s.vmes
    requires s.vmes[k].loaded ==>
                  k in s.ptes && s.ptes[k].present && s.ptes[k].frame in s.frames && s.ptes[k].frame in s.lru
    requires s.vmes[k].loaded ==> s.ptes[k].frame in s.pages && s.pages[s.ptes[k].frame] == k
    ensures TablesOk(Delete(s, k))
    ensures s.vmes[k].loaded ==> Listed(s, s.ptes[k].frame)
    ensures !s.vmes[k].loaded ==> !(k in s.ptes && s.ptes[k].present)
  {
    hide Release, Without, After;
    if s.vmes[k].loaded {
      ReleaseTables(s, s.ptes[k].frame);
      ReleaseFrame(s, s.ptes[k].frame);
      UnlistedTables(Release(s, s.ptes[k].frame), k);
    } else {
      UnlistedTables(s, k);
    }
  }

  lemma UnlistedTables(s: Vm, k: Key)
    requires TablesOk(s) && k in s.vmes && !s.vmes[k].loaded
    ensures TablesOk(s.(vmes := s.vmes - {k}, plain := s.plain - {k}))
  {
  }

  lemma DeleteFrame(s: Vm, k: Key)
    requires k in s.vmes
    ensures var s' := Delete(s, k);
            && s'.vmes == s.vmes - {k} && s'.plain == s.plain - {k} && s'.files == s.files && s'.swap == s.swap
               && s'.crashed == s.crashed
            && (forall j | j in s.ptes && j != k :: j in s'.ptes && s'.ptes[j] == s.ptes[j])
            && (forall f | f in s.frames && !(k in s.ptes && s.ptes[k].present && s.ptes[k].frame == f) ::
                  f in s'.frames && s'.frames[f] == s.frames[f])
  {
    hide Without, After;
  }

  /** Every legal step keeps the invariant; only uses, new pages and unmapping change plain memory. */
  lemma DoKeeps(s: Vm, st: Step)
    requires Inv(s) && Legal(s, st)
    ensures Inv(Do(s, st))
    ensures st.Load? || st.EvictBy? ==> Do(s, st).plain == s.plain
  {
    hide Inv, InsertVme, MapZero, PageIn, Access, Evict, Delete, CanSave, HasVictim, Listed, Backed, RangesApart;
    match st
    case Insert(k, v) => InsertKeeps(s, k, v);
    case Zero(k, f, pinned) => ZeroKeeps(s, k, f, pinned);
    case Load(k, f) => LoadKeeps(s, k, f);
    case Use(k, at, w) => UseParts(s, k); UseKeeps(s, k, at, w);
    case EvictBy(current) => EvictKeeps(s, current);
    case Unmap(k) => UnmapKeeps(s, k);
  }

  ghost predicate Reaches(s: Vm, steps: seq<Step>, s': Vm)
    decreases |steps|
  {
    if steps == [] then s == s'
    else Inv(s) && Legal(s, steps[0]) && Reaches(Do(s, steps[0]), steps[1..], s')
  }

  lemma {:induction false} RunKeeps(s: Vm, steps: seq<Step>, s': Vm)
    requires Inv(s) && Reaches(s, steps, s')
    ensures Inv(s')
    decreases |steps|
  {
    hide Inv, Legal, Do;
    if steps != [] {
      DoKeeps(s, steps[0]);
      RunKeeps(Do(s, steps[0]), steps[1..], s');
    }
  }

  /** After any run of mapping, use, eviction and reloading: a loaded page's frame holds what plain
      memory would, an evicted page's entry rebuilds it, no two pages share a frame or a slot, and
      the hand is null, at the end, or at a listed page. */
  lemma PagingIsTransparent(swap: SwapSpace, files: map<nat, FileData>, steps: seq<Step>, s: Vm)
    requires |swap.used| == |swap.slots| && Reaches(Boot(swap, files), steps, s)
    ensures !s.crashed && HandOk(s.lru, s.hand)
    ensures forall k | k in s.vmes :: k in s.plain
    ensures forall k | k in s.vmes && s.vmes[k].loaded ::
              k in s.ptes && s.ptes[k].frame in s.frames && Agree(s.vmes[k], s.frames[s.ptes[k].frame], s.plain[k])
    ensures forall k | k in s.vmes && !s.vmes[k].loaded ::
              && Rebuild(s.vmes[k], s.files, s.swap).Some?
              && Agree(s.vmes[k], Rebuild(s.vmes[k], s.files, s.swap).value, s.plain[k])
    ensures forall j, k | j in s.vmes && k in s.vmes && j != k && s.vmes[j].loaded && s.vmes[k].loaded ::
              j in s.ptes && k in s.ptes && s.ptes[j].frame != s.ptes[k].frame
    ensures forall j, k | InSwap(s.vmes, j) && InSwap(s.vmes, k) && j != k :: s.vmes[j].slot != s.vmes[k].slot
  {
    hide Reaches, Rebuild, Agree, EntriesOk;
    BootInv(swap, files);
    RunKeeps(Boot(swap, files), steps, s);
    forall k | k in s.vmes
      ensures PageOk(s, k)
    {
    }
  }

  // ---------------------------------------------------------------
  // Who is evicted when
  // ---------------------------------------------------------------

  /** A page used since the hand cleared its bit is not the next one evicted as long as another unpinned
      page past the head has not been used. */
  lemma UsedPageIsSpared(s: Vm, k: Key, at: nat, w: seq<byte>, i: nat)
    requires Inv(s) && k in s.vmes && s.vmes[k].loaded && at + |w| <= 4096
    ensures k in s.ptes && s.ptes[k].present && s.ptes[k].frame in s.frames && k in s.plain
    ensures var s', f := Access(s, k, at, w), s.ptes[k].frame;
            && 1 <= i < |s.lru| && s.lru[i] != f && s.lru[i] !in PinnedFrames(s) + AccessedFrames(s) && HasVictim(s')
            ==> Victim(s') != f
  {
    hide EntriesOk, SwapOk, PagesOk, Visit, Visited, PinnedFrames, AccessedFrames, Patch;
    UseParts(s, k);
    var s', f := Access(s, k, at, w), s.ptes[k].frame;
    if 1 <= i < |s.lru| && s.lru[i] != f && s.lru[i] !in PinnedFrames(s) + AccessedFrames(s) && HasVictim(s') {
      UsedFrames(s, k, at, w);
      SecondChance(s'.lru, HandIndex(s'.lru, s'.hand), AccessedFrames(s'), PinnedFrames(s'), StopTime(s'));
    }
  }

  lemma UsedFrames(s: Vm, k: Key, at: nat, w: seq<byte>)
    requires Inv(s) && k in s.ptes && s.ptes[k].present && s.ptes[k].frame in s.frames && k in s.plain
    requires at + |w| <= 4096
    ensures var s' := Access(s, k, at, w);
            && s'.lru == s.lru && PinnedFrames(s') == PinnedFrames(s)
            && AccessedFrames(s') == AccessedFrames(s) + {s.ptes[k].frame}
  {
    hide EntriesOk, SwapOk, PagesOk, Patch;
  }

  lemma {:induction false} IndexAppended(list: seq<nat>, f: nat, p: nat)
    requires p in list
    ensures p in list + [f] && IndexOf(list + [f], p) == IndexOf(list, p)
  {
    if list[0] != p {
      IndexAppended(list[1..], f, p);
      assert (list + [f])[1..] == list[1..] + [f];
    }
  }

  /** A page that comes in is last on the list: the hand comes to all the pages behind it first, in their
      order, and then to the new one. */
  lemma LoadedComesLast(s: Vm, k: Key, f: nat, j: nat)
    requires Inv(s) && Legal(s, Load(k, f)) && s.hand.At?
    ensures var s', n := Do(s, Load(k, f)), |s.lru|;
            && n > 0 && |s'.lru| == n + 1 && HandOk(s.lru, s.hand) && HandOk(s'.lru, s'.hand)
            && var c := HandIndex(s.lru, s.hand);
               && HandIndex(s'.lru, s'.hand) == c
               && (c + 1 + j < n ==> s'.lru[Visit(n + 1, c, j)] == s.lru[c + 1 + j])
               && (c + 1 + j == n ==> s'.lru[Visit(n + 1, c, j)] == f)
  {
    hide EntriesOk, SwapOk, Visit, IndexOf, Agree;
    PageParts(s, k);
    Rebuilds(s, k);
    IndexAppended(s.lru, f, s.hand.page);
    var c := HandIndex(s.lru, s.hand);
    if c + 1 + j <= |s.lru| { FirstSweep(|s.lru| + 1, c, j); }
  }
}
