/** A page directory from its creation on (userprog/pagedir.c): no frame is ever mapped twice or
    used as a page table, so pagedir_destroy frees each page once. */
module PageRuns {
  import opened Lists
  import opened Options
  import opened PageTable

  ghost predicate Mapped(t: Tables, a: Word)
    requires Valid(t)
  {
    exists u: Word :: IsUser(u) && FrameOf(t, u) == Some(a)
  }

  /** The frame that user address u is in. */
  ghost function FrameOf(t: Tables, u: Word): Option<Word>
    requires Valid(t) && IsUser(u)
  {
    match View(t, u)
    case None => None
    case Some(m) => Some(m.page)
  }

  ghost predicate IsTable(t: Tables, a: Word)
    requires Valid(t)
  {
    exists i :: 0 <= i < 768 && TableAt(t, i, a)
  }

  /** No frame is mapped at two pages, and none is a page table. */
  ghost predicate FramesDistinct(t: Tables)
    requires Valid(t)
  {
    && (forall u: Word, v: Word | IsUser(u) && IsUser(v) && FrameOf(t, u).Some? && FrameOf(t, u) == FrameOf(t, v) ::
          PageOf(u) == PageOf(v))
    && (forall u: Word | IsUser(u) && FrameOf(t, u).Some? :: !IsTable(t, FrameOf(t, u).value))
  }

  /** The page given to a caller by palloc_get_page: in use neither as a frame nor as a table. */
  ghost predicate Unused(t: Tables, a: Word)
    requires Valid(t)
  {
    KernelPage(a) && !Mapped(t, a) && !IsTable(t, a)
  }

  // ---------------------------------------------------------------
  // Each operation keeps frames distinct
  // ---------------------------------------------------------------

  /** An operation that keeps the tables and maps no more than before. */
  lemma FewerMappings(t: Tables, t': Tables)
    requires Valid(t) && Valid(t') && FramesDistinct(t)
    requires forall a: Word | IsTable(t', a) :: IsTable(t, a)
    requires forall u: Word | IsUser(u) :: FrameOf(t', u) == FrameOf(t, u) || FrameOf(t', u) == None
    ensures FramesDistinct(t')
  {
    hide FrameOf, IsTable, PageOf, IsUser;
  }

  lemma NewMapping(t: Tables, t': Tables, upage: Word, kpage: Word, page: Option<Word>)
    requires Valid(t) && Valid(t') && FramesDistinct(t) && IsUser(upage) && Unused(t, kpage)
    requires page.Some? ==> Unused(t, page.value) && page.value != kpage
    requires forall a: Word | IsTable(t', a) :: IsTable(t, a) || page == Some(a)
    requires forall u: Word | IsUser(u) && PageOf(u) != PageOf(upage) :: FrameOf(t', u) == FrameOf(t, u)
    requires forall u: Word | IsUser(u) && PageOf(u) == PageOf(upage) :: FrameOf(t', u) == Some(kpage)
    ensures FramesDistinct(t')
  {
    hide FrameOf, IsTable, PageOf, IsUser, KernelPage;
  }

  lemma SameDirectory(t: Tables, t': Tables)
    requires Valid(t) && Valid(t') && t'.pd == t.pd
    ensures forall a: Word :: IsTable(t', a) <==> IsTable(t, a)
  {
    hide TableOf, Target, Present;
    forall a: Word
      ensures IsTable(t', a) <==> IsTable(t, a)
    {
      if IsTable(t, a) {
        var i :| 0 <= i < 768 && TableAt(t, i, a);
        assert TableAt(t', i, a);
      }
      if IsTable(t', a) {
        var i :| 0 <= i < 768 && TableAt(t', i, a);
        assert TableAt(t, i, a);
      }
    }
  }

  lemma TableAdded(t: Tables, upage: Word, page: Option<Word>)
    requires Valid(t) && IsUser(upage) && page.Some? ==> KernelPage(page.value) && page.value as nat !in t.pts
    requires Valid(t) && IsUser(upage)
    ensures var t' := WithTable(t, upage, page).0;
            Valid(t') && forall a: Word | IsTable(t', a) :: IsTable(t, a) || page == Some(a)
  {
    hide PdNo, PtNo, IsUser, Present, Target, TableOf, PdeCreate, KernelPage, Writable;
    WithTableKeeps(t, upage, page);
    UserIndexes(upage);
    if page.Some? { PackedTable(page.value); }
    var t' := WithTable(t, upage, page).0;
    forall a: Word | IsTable(t', a)
      ensures IsTable(t, a) || page == Some(a)
    {
      var i :| 0 <= i < 768 && TableAt(t', i, a);
      if i != PdNo(upage) || t.pd[i] != 0 { assert TableAt(t, i, a); }
    }
  }

  lemma PackedTable(p: Word)
    ensures KernelPage(p) ==> Target(PdeCreate(p)) == p
  {
    if KernelPage(p) { PackUnpack(p, false); }
  }

  lemma SetPageKeeps(t: Tables, upage: Word, kpage: Word, writable: bool, page: Option<Word>)
    requires Valid(t) && FramesDistinct(t) && IsUser(upage) && Unused(t, kpage)
    requires page.Some? ==> Unused(t, page.value) && page.value as nat !in t.pts && page.value != kpage
    ensures var t' := SetPage(t, upage, kpage, writable, page).0; Valid(t') && FramesDistinct(t')
  {
    hide PdNo, PtNo, IsUser, Present, Target, TableOf, PageOf, Store, PteCreateUser, Writable, KernelPage, View, Mapped;
    hide IsTable, FramesDistinct;
    SetPageMaps(t, upage, kpage, writable, page);
    var (t', ok) := SetPage(t, upage, kpage, writable, page);
    if ok {
      WithTableKeeps(t, upage, page);
      var t1 := WithTable(t, upage, page).0;
      TableAdded(t, upage, page);
      StoredDirectory(t1, upage, PteCreateUser(kpage, writable));
      SameDirectory(t1, t');
      forall u: Word | IsUser(u) && PageOf(u) == PageOf(upage)
        ensures FrameOf(t', u) == Some(kpage)
      {
        ViewOfPage(t', u, upage);
      }
      NewMapping(t, t', upage, kpage, page);
    }
  }

  lemma StoredDirectory(t: Tables, va: Word, e: Word)
    requires Valid(t) && IsUser(va) && Entry(t, va).Some?
    ensures Store(t, va, e).pd == t.pd && Valid(Store(t, va, e))
  {
    hide PdNo, PtNo, IsUser, Present, Target, TableOf;
    StoreIs(t, va, e);
  }

  lemma ClearPageKeeps(t: Tables, upage: Word)
    requires Valid(t) && FramesDistinct(t) && IsUser(upage)
    ensures Valid(ClearPage(t, upage)) && FramesDistinct(ClearPage(t, upage))
  {
    hide PdNo, PtNo, IsUser, Present, Target, TableOf, PageOf, Store, Writable, View, IsTable, FramesDistinct;
    hide WithoutPresent;
    ClearPageUnmaps(t, upage);
    var t' := ClearPage(t, upage);
    if t' != t {
      StoredDirectory(t, upage, WithoutPresent(Entry(t, upage).value));
      SameDirectory(t, t');
      forall u: Word | IsUser(u)
        ensures FrameOf(t', u) == FrameOf(t, u) || FrameOf(t', u) == None
      {
        if PageOf(u) == PageOf(upage) { ViewOfPage(t', u, upage); }
      }
      FewerMappings(t, t');
    }
  }

  lemma SetAccessedKeeps(t: Tables, vpage: Word, value: bool)
    requires Valid(t) && FramesDistinct(t) && IsUser(vpage)
    ensures Valid(SetAccessed(t, vpage, value)) && FramesDistinct(SetAccessed(t, vpage, value))
  {
    hide PdNo, PtNo, IsUser, Present, Target, TableOf, PageOf, Store, Writable, View, IsTable, FramesDistinct;
    hide WithAccessed;
    hide Accessed;
    AccessedKeepsMappings(t, vpage, value);
    if Entry(t, vpage).Some? { StoredDirectory(t, vpage, WithAccessed(Entry(t, vpage).value, value)); }
    SameDirectory(t, SetAccessed(t, vpage, value));
    FewerMappings(t, SetAccessed(t, vpage, value));
  }

  lemma SetDirtyKeeps(t: Tables, vpage: Word, value: bool)
    requires Valid(t) && FramesDistinct(t) && IsUser(vpage)
    ensures Valid(SetDirty(t, vpage, value)) && FramesDistinct(SetDirty(t, vpage, value))
  {
    hide PdNo, PtNo, IsUser, Present, Target, TableOf, PageOf, Store, Writable, View, IsTable, FramesDistinct;
    hide WithDirty;
    hide Dirty;
    DirtyKeepsMappings(t, vpage, value);
    if Entry(t, vpage).Some? { StoredDirectory(t, vpage, WithDirty(Entry(t, vpage).value, value)); }
    SameDirectory(t, SetDirty(t, vpage, value));
    FewerMappings(t, SetDirty(t, vpage, value));
  }

  // ---------------------------------------------------------------
  // From creation to destruction
  // ---------------------------------------------------------------

  /** pagedir_create: the kernel's half of the base directory, and no user page. */
  ghost predicate Created(t: Tables) {
    Valid(t) && forall i | 0 <= i < 768 :: t.pd[i] == 0
  }

  datatype Op =
    | Set(upage: Word, kpage: Word, writable: bool, page: Option<Word>)
    | Clear(upage: Word)
    | MarkAccessed(upage: Word, value: bool)
    | MarkDirty(upage: Word, value: bool)

  /** The frame given to pagedir_set_page and the page palloc_get_page gives it for a table are
      different pages in no other use; all pages are user pages. */
  ghost predicate Legal(t: Tables, op: Op)
    requires Valid(t)
  {
    && IsUser(op.upage)
    && (op.Set? ==> Unused(t, op.kpage))
    && (op.Set? && op.page.Some? ==>
          Unused(t, op.page.value) && op.page.value as nat !in t.pts && op.page.value != op.kpage)
  }

  ghost function Apply(t: Tables, op: Op): (t': Tables)
    requires Valid(t) && Legal(t, op)
    ensures Valid(t')
  {
    hide *;
    match op
    case Set(upage, kpage, writable, page) =>
      SetPageMaps(t, upage, kpage, writable, page);
      SetPage(t, upage, kpage, writable, page).0
    case Clear(upage) => ClearPageUnmaps(t, upage); ClearPage(t, upage)
    case MarkAccessed(upage, value) => AccessedKeepsMappings(t, upage, value); SetAccessed(t, upage, value)
    case MarkDirty(upage, value) => DirtyKeepsMappings(t, upage, value); SetDirty(t, upage, value)
  }

  lemma ApplyKeeps(t: Tables, op: Op)
    requires Valid(t) && FramesDistinct(t) && Legal(t, op)
    ensures Valid(Apply(t, op)) && FramesDistinct(Apply(t, op))
  {
    hide FramesDistinct, Valid, IsUser, SetPage, ClearPage, SetAccessed, SetDirty;
    match op
    case Set(upage, kpage, writable, page) => SetPageKeeps(t, upage, kpage, writable, page);
    case Clear(upage) => ClearPageKeeps(t, upage);
    case MarkAccessed(upage, value) => SetAccessedKeeps(t, upage, value);
    case MarkDirty(upage, value) => SetDirtyKeeps(t, upage, value);
  }

  ghost predicate LegalRun(t: Tables, ops: seq<Op>)
    requires Valid(t)
    decreases |ops|
  {
    ops != [] ==> Legal(t, ops[0]) && LegalRun(Apply(t, ops[0]), ops[1..])
  }

  ghost function Run(t: Tables, ops: seq<Op>): Tables
    requires Valid(t) && LegalRun(t, ops)
    decreases |ops|
  {
    if ops == [] then t else Run(Apply(t, ops[0]), ops[1..])
  }

  lemma {:induction false} RunKeeps(t: Tables, ops: seq<Op>)
    requires Valid(t) && FramesDistinct(t) && LegalRun(t, ops)
    ensures Valid(Run(t, ops)) && FramesDistinct(Run(t, ops))
    decreases |ops|
  {
    hide FramesDistinct, Valid, Apply, Legal;
    if ops != [] {
      ApplyKeeps(t, ops[0]);
      RunKeeps(Apply(t, ops[0]), ops[1..]);
    }
  }

  lemma CreatedDistinct(t: Tables)
    requires Created(t)
    ensures FramesDistinct(t)
  {
    hide PdNo, PtNo, IsUser, Present, Target, TableOf, PageOf, Writable;
    forall u: Word | IsUser(u)
      ensures FrameOf(t, u) == None
    {
      UserIndexes(u);
    }
  }

  /** Distinct frames by address are distinct entries by index. */
  lemma DistinctEntries(t: Tables)
    requires Valid(t) && FramesDistinct(t)
    ensures EntriesDistinct(t)
  {
    hide PdNo, PtNo, IsUser, Present, Target, TableOf, PageOf, Writable, Valid, View, FrameAt, TableAt, IsTable;
    forall i, k, j, l, a: Word | 0 <= i < 768 && 0 <= k < 1024 && 0 <= j < 768 && 0 <= l < 1024
                                 && FrameAt(t, i, k, a) && FrameAt(t, j, l, a)
      ensures i == j && k == l
    {
      var u := EntryAddress(t, i, k, a);
      var v := EntryAddress(t, j, l, a);
      IndexesNamePage(u, v);
    }
    forall i, k, j, a: Word | 0 <= i < 768 && 0 <= k < 1024 && 0 <= j < 768 && FrameAt(t, i, k, a)
      ensures !TableAt(t, j, a)
    {
      var u := EntryAddress(t, i, k, a);
      if TableAt(t, j, a) { TableIsTable(t, j, a); }
    }
  }

  lemma TableIsTable(t: Tables, i: nat, a: Word)
    requires Valid(t) && i < 768 && TableAt(t, i, a)
    ensures IsTable(t, a)
  {
  }

  lemma EntryAddress(t: Tables, i: nat, k: nat, a: Word) returns (u: Word)
    requires Valid(t) && i < 768 && k < 1024 && FrameAt(t, i, k, a)
    ensures IsUser(u) && PdNo(u) == i && PtNo(u) == k && FrameOf(t, u) == Some(a)
  {
    hide PdNo, PtNo, IsUser, Present, Target, TableOf, Writable, PgOfs;
    u := PageAt(i, k);
  }

  /** However a process's pages were set, cleared and marked since its page directory was made,
      pagedir_destroy frees the frame of every page still mapped and every page table, each exactly
      once, and nothing else but the directory. */
  lemma DestroyFreesOnce(t0: Tables, ops: seq<Op>)
    requires Created(t0) && LegalRun(t0, ops)
    ensures var t := Run(t0, ops);
            && Valid(t)
            && (forall a: Word :: a in FreedFrom(t, 0) <==> Mapped(t, a) || IsTable(t, a))
            && NoRepeats(FreedFrom(t, 0))
  {
    hide Apply, Run, LegalRun, FramesDistinct, EntriesDistinct, IsUser, FreedFrom, NoRepeats, View, TableAt, Valid;
    CreatedDistinct(t0);
    RunKeeps(t0, ops);
    var t := Run(t0, ops);
    DistinctEntries(t);
    DestroyFrees(t);
  }
}
