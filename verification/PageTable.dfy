/** The two-level page table (userprog/pagedir.c, threads/pte.h) as a finite map from user pages to
    frames. Entries are 32-bit words and are packed and unpacked as the source does. */
module PageTable {
  import opened Lists
  import opened Options

  type Word = bv32

  // ---------------------------------------------------------------
  // pte.h and vaddr.h
  // ---------------------------------------------------------------

  function PtNo(va: Word): nat { ((va & 0x3ff000) >> 12) as nat }

  function PdNo(va: Word): nat { (va >> 22) as nat }

  function PgOfs(va: Word): Word { va & 0xfff }

  function PageOf(va: Word): Word { va & 0xfffff000 }

  predicate IsUser(va: Word) { va < 0xC000_0000 }

  function Ptov(pa: Word): Word { pa + 0xC000_0000 }

  function Vtop(va: Word): Word { va - 0xC000_0000 }

  predicate Present(e: Word) { e & 1 != 0 }

  predicate Writable(e: Word) { e & 2 != 0 }

  predicate Accessed(e: Word) { e & 0x20 != 0 }

  predicate Dirty(e: Word) { e & 0x40 != 0 }

  function PdeCreate(pt: Word): Word { Vtop(pt) | 4 | 1 | 2 }

  function PteCreateUser(page: Word, writable: bool): Word { Vtop(page) | 1 | (if writable then 2 else 0) | 4 }

  /** pde_get_pt and pte_get_page. */
  function Target(e: Word): Word { Ptov(e & 0xfffff000) }

  /** A page-aligned kernel address. */
  predicate KernelPage(page: Word) { PgOfs(page) == 0 && page >= 0xC000_0000 }

  /** An entry made for a page leads back to it, is present, not yet accessed or dirty, and is
      writable as asked. */
  lemma PackUnpack(page: Word, writable: bool)
    requires KernelPage(page)
    ensures Target(PteCreateUser(page, writable)) == page && Target(PdeCreate(page)) == page
    ensures Present(PteCreateUser(page, writable)) && Present(PdeCreate(page)) && PdeCreate(page) != 0
    ensures Writable(PteCreateUser(page, writable)) <==> writable
    ensures !Accessed(PteCreateUser(page, writable)) && !Dirty(PteCreateUser(page, writable))
  {
  }

  /** The two indexes name the page and nothing less. */
  lemma IndexesNamePage(a: Word, b: Word)
    ensures PdNo(a) == PdNo(b) && PtNo(a) == PtNo(b) <==> PageOf(a) == PageOf(b)
  {
    hide *;
    if PageOf(a) == PageOf(b) { SamePageSameIndexes(a, b); }
    if PdNo(a) == PdNo(b) && PtNo(a) == PtNo(b) { SameIndexesSamePage(a, b); }
  }

  lemma SamePageSameIndexes(a: Word, b: Word)
    requires PageOf(a) == PageOf(b)
    ensures PdNo(a) == PdNo(b) && PtNo(a) == PtNo(b)
  {
  }

  lemma SameIndexesSamePage(a: Word, b: Word)
    requires PdNo(a) == PdNo(b) && PtNo(a) == PtNo(b)
    ensures PageOf(a) == PageOf(b)
  {
    hide PageOf;
    SameDirectoryIndex(a, b);
    SameTableIndex(a, b);
    EqualFields(a, b);
  }

  lemma SameDirectoryIndex(a: Word, b: Word)
    requires PdNo(a) == PdNo(b)
    ensures a >> 22 == b >> 22
  {
  }

  lemma SameTableIndex(a: Word, b: Word)
    requires PtNo(a) == PtNo(b)
    ensures (a & 0x3ff000) >> 12 == (b & 0x3ff000) >> 12
  {
  }

  lemma EqualFields(a: Word, b: Word)
    requires a >> 22 == b >> 22 && (a & 0x3ff000) >> 12 == (b & 0x3ff000) >> 12
    ensures PageOf(a) == PageOf(b)
  {
  }

  lemma IndexRange(a: Word)
    ensures PdNo(a) < 1024 && PtNo(a) < 1024
  {
  }

  lemma UserHalf(a: Word)
    requires IsUser(a)
    ensures PdNo(a) < 768
  {
    assert a >> 22 < 768;
  }

  /** e' maps to the same place as e, with the same rights. */
  predicate SameMapping(e: Word, e': Word) {
    (Present(e) <==> Present(e')) && Target(e) == Target(e') && (Writable(e) <==> Writable(e'))
  }

  function WithoutPresent(e: Word): Word { e & !1 }

  function WithAccessed(e: Word, value: bool): Word { if value then e | 0x20 else e & !0x20 }

  function WithDirty(e: Word, value: bool): Word { if value then e | 0x40 else e & !0x40 }

  /** Clearing the present bit keeps the address and the other flags. */
  lemma ClearPresent(e: Word)
    ensures !Present(WithoutPresent(e)) && Target(WithoutPresent(e)) == Target(e)
    ensures Accessed(WithoutPresent(e)) == Accessed(e) && Dirty(WithoutPresent(e)) == Dirty(e)
            && Writable(WithoutPresent(e)) == Writable(e)
  {
  }

  lemma ChangeAccessed(e: Word, value: bool)
    ensures SameMapping(e, WithAccessed(e, value)) && Accessed(WithAccessed(e, value)) == value
    ensures Dirty(WithAccessed(e, value)) == Dirty(e)
  {
    hide Present, Writable, Target, Accessed, Dirty;
    if value { SetAccessedBit(e); } else { ClearAccessedBit(e); }
  }

  lemma ChangeDirty(e: Word, value: bool)
    ensures SameMapping(e, WithDirty(e, value)) && Dirty(WithDirty(e, value)) == value
    ensures Accessed(WithDirty(e, value)) == Accessed(e)
  {
    hide Present, Writable, Target, Accessed, Dirty;
    if value { SetDirtyBit(e); } else { ClearDirtyBit(e); }
  }

  lemma SetAccessedBit(e: Word)
    ensures SameMapping(e, e | 0x20) && Accessed(e | 0x20) && Dirty(e | 0x20) == Dirty(e)
  {
  }

  lemma ClearAccessedBit(e: Word)
    ensures SameMapping(e, e & !0x20) && !Accessed(e & !0x20) && Dirty(e & !0x20) == Dirty(e)
  {
  }

  lemma SetDirtyBit(e: Word)
    ensures SameMapping(e, e | 0x40) && Dirty(e | 0x40) && Accessed(e | 0x40) == Accessed(e)
  {
  }

  lemma ClearDirtyBit(e: Word)
    ensures SameMapping(e, e & !0x40) && !Dirty(e & !0x40) && Accessed(e & !0x40) == Accessed(e)
  {
  }

  // ---------------------------------------------------------------
  // Directories and tables
  // ---------------------------------------------------------------

  /** A page directory, and the page tables in kernel memory by their addresses: 1024 words each. */
  datatype Tables = Tables(pd: seq<Word>, pts: map<nat, seq<Word>>)

  /** The address of the page table that a directory entry points to. */
  function TableOf(e: Word): nat { Target(e) as nat }

  ghost predicate Valid(t: Tables) {
    && |t.pd| == 1024
    && (forall i | 0 <= i < 768 && t.pd[i] != 0 :: Present(t.pd[i]) && TableOf(t.pd[i]) in t.pts)
    && (forall p | p in t.pts :: |t.pts[p]| == 1024)
    && (forall i, j | 0 <= i < j < 768 && t.pd[i] != 0 && t.pd[j] != 0 :: TableOf(t.pd[i]) != TableOf(t.pd[j]))
  }

  datatype Mapping = Mapping(page: Word, writable: bool)

  lemma UserIndexes(va: Word)
    requires IsUser(va)
    ensures PdNo(va) < 768 && PtNo(va) < 1024
  {
    hide *;
    IndexRange(va);
    UserHalf(va);
  }

  /** The page table entry for va, if it has a page table. */
  ghost function Entry(t: Tables, va: Word): Option<Word>
    requires Valid(t) && IsUser(va)
  {
    UserIndexes(va);
    if t.pd[PdNo(va)] == 0 then None else Some(t.pts[TableOf(t.pd[PdNo(va)])][PtNo(va)])
  }

  /** What the tables mean: the frame that user address va is mapped to. */
  ghost function View(t: Tables, va: Word): Option<Mapping>
    requires Valid(t) && IsUser(va)
  {
    match Entry(t, va)
    case None => None
    case Some(e) => if Present(e) then Some(Mapping(Target(e), Writable(e))) else None
  }

  /** lookup_page's creation of a missing table on a fresh zeroed page; false when there is none. */
  ghost function WithTable(t: Tables, va: Word, page: Option<Word>): (Tables, bool)
    requires Valid(t) && IsUser(va)
  {
    UserIndexes(va);
    if t.pd[PdNo(va)] != 0 then (t, true)
    else match page
      case None => (t, false)
      case Some(p) => (Tables(t.pd[PdNo(va) := PdeCreate(p)], t.pts[p as nat := seq(1024, _ => 0)]), true)
  }

  /** *pte = e for va's entry. */
  ghost function Store(t: Tables, va: Word, e: Word): Tables
    requires Valid(t) && IsUser(va) && Entry(t, va).Some?
  {
    UserIndexes(va);
    var p := TableOf(t.pd[PdNo(va)]);
    t.(pts := t.pts[p := t.pts[p][PtNo(va) := e]])
  }

  /** A new table maps nothing. */
  lemma WithTableKeeps(t: Tables, va: Word, page: Option<Word>)
    requires Valid(t) && IsUser(va)
    requires page.Some? ==> KernelPage(page.value) && page.value as nat !in t.pts
    ensures var (t', ok) := WithTable(t, va, page);
            && Valid(t') && (ok <==> Entry(t, va).Some? || page.Some?) && (ok <==> Entry(t', va).Some?)
               && (!ok ==> t' == t)
            && (forall u: Word | IsUser(u) :: View(t', u) == View(t, u))
            && (Entry(t, va).Some? ==> t' == t)
  {
    hide PdNo, PtNo, IsUser, Present, TableOf, PdeCreate, KernelPage, Writable;
    UserIndexes(va);
    if t.pd[PdNo(va)] == 0 && page.Some? {
      var p := page.value;
      NewPde(p);
      var t' := WithTable(t, va, page).0;
      assert Valid(t');
      forall u: Word | IsUser(u)
        ensures View(t', u) == View(t, u)
      {
        UserIndexes(u);
        ZeroAbsent();
      }
    }
  }

  lemma NewPde(p: Word)
    requires KernelPage(p)
    ensures TableOf(PdeCreate(p)) == p as nat && Present(PdeCreate(p)) && PdeCreate(p) != 0
  {
    assert Target(PdeCreate(p)) == p;
  }

  lemma ZeroAbsent()
    ensures !Present(0)
  {
  }

  /** Storing an entry changes the one page's mapping and no other. */
  lemma StoreIs(t: Tables, va: Word, e: Word)
    requires Valid(t) && IsUser(va) && Entry(t, va).Some?
    ensures var t' := Store(t, va, e);
            && Valid(t') && Entry(t', va) == Some(e)
            && forall u: Word | IsUser(u) && PageOf(u) != PageOf(va) :: Entry(t', u) == Entry(t, u)
  {
    hide PdNo, PtNo, IsUser, Present, TableOf, PageOf;
    UserIndexes(va);
    var t' := Store(t, va, e);
    assert Valid(t');
    forall u: Word | IsUser(u) && PageOf(u) != PageOf(va)
      ensures Entry(t', u) == Entry(t, u)
    {
      UserIndexes(u);
      IndexesNamePage(u, va);
    }
  }

  // ---------------------------------------------------------------
  // pagedir.c
  // ---------------------------------------------------------------

  /** pagedir_set_page; page is what palloc_get_page gives if a table must be made. */
  ghost function SetPage(t: Tables, upage: Word, kpage: Word, writable: bool, page: Option<Word>): (Tables, bool)
    requires Valid(t) && IsUser(upage)
    requires page.Some? ==> KernelPage(page.value) && page.value as nat !in t.pts
  {
    var (t1, ok) := WithTable(t, upage, page);
    if !ok then (t1, false)
    else
      WithTableKeeps(t, upage, page);
      (Store(t1, upage, PteCreateUser(kpage, writable)), true)
  }

  /** The byte of a frame that user address uaddr is. */
  function ByteIn(page: Word, uaddr: Word): Word { page + PgOfs(uaddr) }

  /** pagedir_get_page: the kernel address of the user byte, or null. */
  ghost function GetPage(t: Tables, uaddr: Word): Option<Word>
    requires Valid(t) && IsUser(uaddr)
  {
    match Entry(t, uaddr)
    case None => None
    case Some(e) => if Present(e) then Some(ByteIn(Target(e), uaddr)) else None
  }

  /** pagedir_clear_page. */
  ghost function ClearPage(t: Tables, upage: Word): Tables
    requires Valid(t) && IsUser(upage)
  {
    match Entry(t, upage)
    case None => t
    case Some(e) => if Present(e) then Store(t, upage, WithoutPresent(e)) else t
  }

  /** pagedir_set_accessed. */
  ghost function SetAccessed(t: Tables, vpage: Word, accessed: bool): Tables
    requires Valid(t) && IsUser(vpage)
  {
    match Entry(t, vpage)
    case None => t
    case Some(e) => Store(t, vpage, WithAccessed(e, accessed))
  }

  /** pagedir_set_dirty. */
  ghost function SetDirty(t: Tables, vpage: Word, dirty: bool): Tables
    requires Valid(t) && IsUser(vpage)
  {
    match Entry(t, vpage)
    case None => t
    case Some(e) => Store(t, vpage, WithDirty(e, dirty))
  }

  /** Every other page maps as it did. */
  ghost predicate OthersSame(t: Tables, t': Tables, upage: Word)
    requires Valid(t) && Valid(t')
  {
    forall u: Word | IsUser(u) && PageOf(u) != PageOf(upage) :: View(t', u) == View(t, u)
  }

  lemma StoreView(t: Tables, va: Word, e: Word)
    requires Valid(t) && IsUser(va) && Entry(t, va).Some?
    ensures var t' := Store(t, va, e);
            && Valid(t') && OthersSame(t, t', va)
            && View(t', va) == if Present(e) then Some(Mapping(Target(e), Writable(e))) else None
  {
    hide PdNo, PtNo, IsUser, Present, Target, TableOf, PageOf, Store;
    StoreIs(t, va, e);
  }

  /** All addresses in a page map alike. */
  lemma ViewOfPage(t: Tables, a: Word, b: Word)
    requires Valid(t) && IsUser(a) && IsUser(b) && PageOf(a) == PageOf(b)
    ensures View(t, a) == View(t, b) && Entry(t, a) == Entry(t, b)
  {
    hide PdNo, PtNo, IsUser, Present, Target, TableOf, PageOf;
    IndexesNamePage(a, b);
  }

  /** Setting a page is a map update; it fails only for want of a page for the table. */
  lemma SetPageMaps(t: Tables, upage: Word, kpage: Word, writable: bool, page: Option<Word>)
    requires Valid(t) && IsUser(upage) && KernelPage(kpage)
    requires page.Some? ==> KernelPage(page.value) && page.value as nat !in t.pts
    ensures var (t', ok) := SetPage(t, upage, kpage, writable, page);
            && Valid(t') && OthersSame(t, t', upage)
            && (ok ==> View(t', upage) == Some(Mapping(kpage, writable)))
            && (!ok ==> t' == t && page.None? && View(t, upage) == None)
  {
    hide PdNo, PtNo, IsUser, Present, Target, TableOf, PageOf, Store, WithTable, PteCreateUser, Writable, KernelPage;
    WithTableKeeps(t, upage, page);
    var (t1, ok) := WithTable(t, upage, page);
    if ok {
      PackUnpack(kpage, writable);
      StoreView(t1, upage, PteCreateUser(kpage, writable));
    }
  }

  /** Getting a page is a map lookup. */
  lemma GetPageReads(t: Tables, uaddr: Word)
    requires Valid(t) && IsUser(uaddr)
    ensures GetPage(t, uaddr) == match View(t, uaddr)
                                 case None => None
                                 case Some(m) => Some(ByteIn(m.page, uaddr))
  {
    hide PdNo, PtNo, IsUser, Present, Target, TableOf, PgOfs, Valid, Writable, Entry, ByteIn;
  }

  /** Clearing a page is a map removal. */
  lemma ClearPageUnmaps(t: Tables, upage: Word)
    requires Valid(t) && IsUser(upage)
    ensures var t' := ClearPage(t, upage);
            Valid(t') && View(t', upage) == None && OthersSame(t, t', upage)
  {
    hide PdNo, PtNo, IsUser, Present, Target, TableOf, PageOf, Store, WithoutPresent, Accessed, Dirty, Writable;
    match Entry(t, upage)
    case None =>
    case Some(e) =>
      ClearPresent(e);
      StoreView(t, upage, WithoutPresent(e));
  }

  /** Setting or clearing the accessed bit changes no mapping. */
  lemma AccessedKeepsMappings(t: Tables, vpage: Word, value: bool)
    requires Valid(t) && IsUser(vpage)
    ensures var t' := SetAccessed(t, vpage, value);
            && Valid(t') && (forall u: Word | IsUser(u) :: View(t', u) == View(t, u))
            && (Entry(t, vpage).Some? ==>
                  && Entry(t', vpage).Some? && Accessed(Entry(t', vpage).value) == value
                  && Dirty(Entry(t', vpage).value) == Dirty(Entry(t, vpage).value))
  {
    hide PdNo, PtNo, IsUser, Present, Target, TableOf, PageOf, Store, Writable, Accessed, Dirty, WithAccessed;
    hide SameMapping;
    match Entry(t, vpage)
    case None =>
    case Some(e) =>
      ChangeAccessed(e, value);
      SameStore(t, vpage, e, WithAccessed(e, value));
  }

  /** Nor does setting or clearing the dirty bit. */
  lemma DirtyKeepsMappings(t: Tables, vpage: Word, value: bool)
    requires Valid(t) && IsUser(vpage)
    ensures var t' := SetDirty(t, vpage, value);
            && Valid(t') && (forall u: Word | IsUser(u) :: View(t', u) == View(t, u))
            && (Entry(t, vpage).Some? ==>
                  && Entry(t', vpage).Some? && Dirty(Entry(t', vpage).value) == value
                  && Accessed(Entry(t', vpage).value) == Accessed(Entry(t, vpage).value))
  {
    hide PdNo, PtNo, IsUser, Present, Target, TableOf, PageOf, Store, Writable, Accessed, Dirty, WithDirty, SameMapping;
    match Entry(t, vpage)
    case None =>
    case Some(e) =>
      ChangeDirty(e, value);
      SameStore(t, vpage, e, WithDirty(e, value));
  }

  lemma SameStore(t: Tables, va: Word, e: Word, e': Word)
    requires Valid(t) && IsUser(va) && Entry(t, va) == Some(e) && SameMapping(e, e')
    ensures var t' := Store(t, va, e');
            && Valid(t') && Entry(t', va) == Some(e') && forall u: Word | IsUser(u) :: View(t', u) == View(t, u)
  {
    hide PdNo, PtNo, IsUser, Present, Target, TableOf, PageOf, Store, Writable;
    StoreIs(t, va, e');
    StoreView(t, va, e');
    forall u: Word | IsUser(u)
      ensures View(Store(t, va, e'), u) == View(t, u)
    {
      if PageOf(u) == PageOf(va) {
        ViewOfPage(t, u, va);
        ViewOfPage(Store(t, va, e'), u, va);
      }
    }
  }

  // ---------------------------------------------------------------
  // pagedir_destroy
  // ---------------------------------------------------------------

  /** The frames that entries k and up of a page table lead to, in order. */
  ghost function FramesFrom(pt: seq<Word>, k: nat): (r: seq<Word>)
    requires |pt| == 1024 && k <= 1024
    decreases 1024 - k
  {
    if k == 1024 then [] else (if Present(pt[k]) then [Target(pt[k])] else []) + FramesFrom(pt, k + 1)
  }

  /** The pages that the outer loop frees from directory entry i on: each table's frames, then the
      table. */
  ghost function FreedFrom(t: Tables, i: nat): (r: seq<Word>)
    requires Valid(t) && i <= 768
    decreases 768 - i
  {
    if i == 768 then []
    else (if t.pd[i] != 0 then FramesFrom(t.pts[TableOf(t.pd[i])], 0) + [Target(t.pd[i])] else []) + FreedFrom(t, i + 1)
  }

  lemma FramesStep(pt: seq<Word>, k: nat)
    requires |pt| == 1024 && k < 1024
    ensures FramesFrom(pt, k) == (if Present(pt[k]) then [Target(pt[k])] else []) + FramesFrom(pt, k + 1)
    ensures FramesFrom(pt, 1024) == []
  {
    hide Present, Target;
  }

  lemma FreedStep(t: Tables, i: nat)
    requires Valid(t) && i < 768
    ensures FreedFrom(t, i) == (if t.pd[i] != 0 then FramesFrom(t.pts[TableOf(t.pd[i])], 0) + [Target(t.pd[i])]
            else []) + FreedFrom(t, i + 1)
    ensures FreedFrom(t, 768) == []
  {
    hide Present, Target, TableOf, FramesFrom;
  }

  /** a is the frame of directory entry i, table entry k. */
  ghost predicate FrameAt(t: Tables, i: nat, k: nat, a: Word)
    requires Valid(t) && i < 768 && k < 1024
  {
    t.pd[i] != 0 && Present(t.pts[TableOf(t.pd[i])][k]) && Target(t.pts[TableOf(t.pd[i])][k]) == a
  }

  ghost predicate TableAt(t: Tables, i: nat, a: Word)
    requires Valid(t) && i < 768
  {
    t.pd[i] != 0 && Target(t.pd[i]) == a
  }

  /** No frame is mapped twice, and none is a page table. */
  ghost predicate EntriesDistinct(t: Tables)
    requires Valid(t)
  {
    && (forall i, k, j, l, a: Word | 0 <= i < 768 && 0 <= k < 1024 && 0 <= j < 768 && 0 <= l < 1024
       && FrameAt(t, i, k, a) && FrameAt(t, j, l, a) ::
          i == j && k == l)
    && (forall i, k, j, a: Word | 0 <= i < 768 && 0 <= k < 1024 && 0 <= j < 768 && FrameAt(t, i, k, a) ::
         !TableAt(t, j, a))
  }

  lemma {:induction false} FramesFromIs(pt: seq<Word>, k: nat, a: Word)
    requires |pt| == 1024 && k <= 1024
    ensures a in FramesFrom(pt, k) <==> exists l :: k <= l < 1024 && Present(pt[l]) && Target(pt[l]) == a
    decreases 1024 - k
  {
    hide Present, Target;
    if k < 1024 { FramesFromIs(pt, k + 1, a); }
  }

  lemma {:induction false} FramesFromOnce(pt: seq<Word>, k: nat)
    requires |pt| == 1024 && k <= 1024
    requires forall l, m | 0 <= l < m < 1024 && Present(pt[l]) && Present(pt[m]) :: Target(pt[l]) != Target(pt[m])
    ensures NoRepeats(FramesFrom(pt, k))
    decreases 1024 - k
  {
    hide Present, Target;
    if k < 1024 {
      FramesFromOnce(pt, k + 1);
      if Present(pt[k]) {
        FramesFromIs(pt, k + 1, Target(pt[k]));
        ConsNoRepeats(Target(pt[k]), FramesFrom(pt, k + 1));
      } else {
        assert [] + FramesFrom(pt, k + 1) == FramesFrom(pt, k + 1);
      }
    }
  }

  lemma ConsNoRepeats(a: Word, s: seq<Word>)
    requires NoRepeats(s) && a !in s
    ensures NoRepeats([a] + s)
  {
  }

  lemma JoinNoRepeats(a: seq<Word>, b: seq<Word>)
    requires NoRepeats(a) && NoRepeats(b) && forall x | x in a :: x !in b
    ensures NoRepeats(a + b)
  {
    forall i, j | 0 <= i < j < |a + b|
      ensures (a + b)[i] != (a + b)[j]
    {
      if i < |a| <= j { assert a[i] in a && b[j - |a|] in b; }
    }
  }

  lemma OwnIs(t: Tables, i: nat, x: Word)
    requires Valid(t) && i < 768 && t.pd[i] != 0
    ensures x in FramesFrom(t.pts[TableOf(t.pd[i])], 0) + [Target(t.pd[i])] <==>
              (exists k :: 0 <= k < 1024 && FrameAt(t, i, k, x)) || TableAt(t, i, x)
  {
    hide Present, Target, TableOf;
    var pt := t.pts[TableOf(t.pd[i])];
    FramesFromIs(pt, 0, x);
    if x in FramesFrom(pt, 0) {
      var k :| 0 <= k < 1024 && Present(pt[k]) && Target(pt[k]) == x;
      assert FrameAt(t, i, k, x);
    }
    if k :| 0 <= k < 1024 && FrameAt(t, i, k, x) { assert x in FramesFrom(pt, 0); }
  }

  /** What is freed: exactly the frames and the tables. */
  lemma {:induction false} FreedFromIs(t: Tables, i: nat, a: Word)
    requires Valid(t) && i <= 768
    ensures a in FreedFrom(t, i) <==>
              || (exists j, k :: i <= j < 768 && 0 <= k < 1024 && FrameAt(t, j, k, a))
              || (exists j :: i <= j < 768 && TableAt(t, j, a))
    decreases 768 - i
  {
    hide Present, Target, TableOf, FramesFrom;
    if i < 768 {
      FreedFromIs(t, i + 1, a);
      if t.pd[i] != 0 {
        hide FrameAt, TableAt;
        OwnIs(t, i, a);
      }
    }
  }

  /** Each of them once. */
  lemma {:induction false} FreedFromOnce(t: Tables, i: nat)
    requires Valid(t) && EntriesDistinct(t) && i <= 768
    ensures NoRepeats(FreedFrom(t, i))
    decreases 768 - i
  {
    hide Present, Target, TableOf, NoRepeats, FreedFrom, FramesFrom, EntriesDistinct;
    if i == 768 {
      FreedStep(t, 0);
      EmptyNoRepeats();
    } else {
      FreedFromOnce(t, i + 1);
      FreedStep(t, i);
      var rest := FreedFrom(t, i + 1);
      if t.pd[i] == 0 {
        assert [] + rest == rest;
      } else {
        var own := FramesFrom(t.pts[TableOf(t.pd[i])], 0) + [Target(t.pd[i])];
        OwnOnce(t, i);
        forall x | x in own
          ensures x !in rest
        {
          OwnIs(t, i, x);
          FreedFromIs(t, i + 1, x);
          ApartFromRest(t, i, x);
        }
        JoinNoRepeats(own, rest);
      }
    }
  }

  lemma EmptyNoRepeats()
    ensures NoRepeats<Word>([])
  {
  }

  lemma FrameUnique(t: Tables, i: nat, k: nat, j: nat, l: nat, a: Word)
    requires Valid(t) && EntriesDistinct(t) && i < 768 && k < 1024 && j < 768 && l < 1024
    requires FrameAt(t, i, k, a) && FrameAt(t, j, l, a)
    ensures i == j && k == l
  {
    hide Present, Target, TableOf;
  }

  lemma FrameNotTable(t: Tables, i: nat, k: nat, j: nat, a: Word)
    requires Valid(t) && EntriesDistinct(t) && i < 768 && k < 1024 && j < 768 && FrameAt(t, i, k, a)
    ensures !TableAt(t, j, a)
  {
    hide Present, Target, TableOf;
  }

  lemma TableUnique(t: Tables, i: nat, j: nat, a: Word)
    requires Valid(t) && i < 768 && j < 768 && TableAt(t, i, a) && TableAt(t, j, a)
    ensures i == j
  {
    hide Present, Target;
  }

  lemma OwnOnce(t: Tables, i: nat)
    requires Valid(t) && EntriesDistinct(t) && i < 768 && t.pd[i] != 0
    ensures NoRepeats(FramesFrom(t.pts[TableOf(t.pd[i])], 0) + [Target(t.pd[i])])
  {
    hide Present, Target, TableOf, EntriesDistinct;
    var pt := t.pts[TableOf(t.pd[i])];
    forall l, m | 0 <= l < m < 1024 && Present(pt[l]) && Present(pt[m])
      ensures Target(pt[l]) != Target(pt[m])
    {
      if Target(pt[l]) == Target(pt[m]) { FrameUnique(t, i, l, i, m, Target(pt[l])); }
    }
    FramesFromOnce(pt, 0);
    FramesFromIs(pt, 0, Target(t.pd[i]));
    forall k | 0 <= k < 1024 && Present(pt[k])
      ensures Target(pt[k]) != Target(t.pd[i])
    {
      FrameNotTable(t, i, k, i, Target(pt[k]));
    }
    assert NoRepeats([Target(t.pd[i])]);
    JoinNoRepeats(FramesFrom(pt, 0), [Target(t.pd[i])]);
  }

  lemma ApartFromRest(t: Tables, i: nat, x: Word)
    requires Valid(t) && EntriesDistinct(t) && i < 768
    requires (exists k :: 0 <= k < 1024 && FrameAt(t, i, k, x)) || TableAt(t, i, x)
    ensures !(exists j, k :: i + 1 <= j < 768 && 0 <= k < 1024 && FrameAt(t, j, k, x))
    ensures !(exists j :: i + 1 <= j < 768 && TableAt(t, j, x))
  {
    hide Present, Target, EntriesDistinct, FrameAt, TableAt;
    forall j, k | i + 1 <= j < 768 && 0 <= k < 1024 && FrameAt(t, j, k, x)
      ensures false
    {
      if TableAt(t, i, x) {
        FrameNotTable(t, j, k, i, x);
      } else {
        var l :| 0 <= l < 1024 && FrameAt(t, i, l, x);
        FrameUnique(t, i, l, j, k, x);
      }
    }
    forall j | i + 1 <= j < 768 && TableAt(t, j, x)
      ensures false
    {
      if TableAt(t, i, x) {
        TableUnique(t, i, j, x);
      } else {
        var l :| 0 <= l < 1024 && FrameAt(t, i, l, x);
        FrameNotTable(t, i, l, j, x);
      }
    }
  }

  /** pagedir_destroy frees the frame of every mapped user page and every user page table and
      nothing else but the directory; each once if the entries lead to different pages. */
  lemma DestroyFrees(t: Tables)
    requires Valid(t)
    ensures forall a: Word :: a in FreedFrom(t, 0) <==>
              || (exists u: Word :: IsUser(u) && View(t, u).Some? && View(t, u).value.page == a)
              || (exists i :: 0 <= i < 768 && TableAt(t, i, a))
    ensures EntriesDistinct(t) ==> NoRepeats(FreedFrom(t, 0))
  {
    hide PdNo, PtNo, IsUser, Present, Target, TableOf, PageOf, FreedFrom, Writable, NoRepeats, EntriesDistinct;
    forall a: Word
      ensures a in FreedFrom(t, 0) <==>
                || (exists u: Word :: IsUser(u) && View(t, u).Some? && View(t, u).value.page == a)
                || (exists i :: 0 <= i < 768 && TableAt(t, i, a))
    {
      FreedFromIs(t, 0, a);
      if u: Word :| IsUser(u) && View(t, u).Some? && View(t, u).value.page == a {
        UserIndexes(u);
        assert FrameAt(t, PdNo(u), PtNo(u), a);
      }
      if j, k :| 0 <= j < 768 && 0 <= k < 1024 && FrameAt(t, j, k, a) {
        var u := PageAt(j, k);
        assert View(t, u).Some? && View(t, u).value.page == a;
      }
    }
    if EntriesDistinct(t) { FreedFromOnce(t, 0); }
  }

  /** Every pair of indexes is some page's. */
  function PageAt(i: nat, j: nat): (va: Word)
    requires i < 768 && j < 1024
    ensures IsUser(va) && PdNo(va) == i && PtNo(va) == j && PgOfs(va) == 0
  {
    LowWord(WordOf(i));
    FieldsBack(WordOf(i), WordOf(j));
    (WordOf(i) << 22) | (WordOf(j) << 12)
  }

  lemma LowWord(a: Word)
    requires a as nat < 768
    ensures a < 768
  {
  }

  lemma FieldsBack(a: Word, b: Word)
    requires a < 768 && b < 1024
    ensures var va := (a << 22) | (b << 12);
            IsUser(va) && PdNo(va) == a as nat && PtNo(va) == b as nat && PgOfs(va) == 0
  {
    FieldBits(a, b);
  }

  lemma FieldBits(a: Word, b: Word)
    requires a < 768 && b < 1024
    ensures var va := (a << 22) | (b << 12);
            va >> 22 == a && (va & 0x3ff000) >> 12 == b && va & 0xfff == 0 && va < 0xC000_0000
  {
  }

  /** The word with a given small value. */
  function WordOf(i: nat): (a: Word)
    requires i < 1024
    ensures a < 1024 && a as nat == i
  {
    if i == 0 then
      ZeroWord();
      0
    else
      NextWord(WordOf(i - 1));
      WordOf(i - 1) + 1
  }

  lemma ZeroWord()
    ensures (0 as Word) as nat == 0
  {
  }

  lemma NextWord(a: Word)
    requires a < 1024 && a as nat < 1023
    ensures a + 1 < 1024 && (a + 1) as nat == a as nat + 1
  {
    SmallWord(a);
    Succ(a);
  }

  lemma SmallWord(a: Word)
    requires a as nat < 1023
    ensures a < 1023
  {
  }

  lemma Succ(a: Word)
    requires a < 1024
    ensures (a + 1) as nat == a as nat + 1
  {
  }
}
