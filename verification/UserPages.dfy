/** A process's memory as its page table shows it: pages of bytes by page number. */
module UserPages {
  import opened Bytes
  import opened Options
  import opened PageTable
  import opened PageRuns

  /** A mapped user page. */
  datatype Frame = Frame(bytes: Page, writable: bool)

  /** The number of the page that va is in. */
  function PageNo(va: Word): nat { 1024 * PdNo(va) + PtNo(va) }

  /** The address of page p of user memory. */
  function PageAddress(p: nat): (va: Word)
    requires p < 0xC_0000
    ensures PageNo(va) == p && PgOfs(va) == 0 && IsUser(va)
  {
    PageAt(p / 1024, p % 1024)
  }

  /** A page number names a page. */
  lemma SamePage(a: Word, b: Word)
    ensures PageNo(a) == PageNo(b) <==> PageOf(a) == PageOf(b)
  {
    hide PdNo, PtNo, PageOf;
    IndexRange(a);
    IndexRange(b);
    IndexesNamePage(a, b);
  }

  lemma UserPageNumber(va: Word)
    requires IsUser(va)
    ensures PageNo(va) < 0xC_0000
  {
    hide PdNo, PtNo;
    UserIndexes(va);
  }

  /** What user address va sees is what space has for its page. */
  ghost predicate ShownAt(t: Tables, memory: map<nat, Page>, space: map<nat, Frame>, va: Word)
    requires Valid(t) && IsUser(va)
  {
    match View(t, va)
    case None => PageNo(va) !in space
    case Some(m) =>
      PageNo(va) in space && m.page as nat in memory && space[PageNo(va)] == Frame(memory[m.page as nat], m.writable)
  }

  /** The page table shows exactly space: memory holds the frames by their kernel addresses. */
  ghost predicate Shows(t: Tables, memory: map<nat, Page>, space: map<nat, Frame>)
    requires Valid(t)
  {
    && (forall va: Word | IsUser(va) :: ShownAt(t, memory, space, va))
    && forall p | p in space :: p < 0xC_0000
  }

  lemma EmptyShows(t: Tables, memory: map<nat, Page>)
    requires Created(t)
    ensures Shows(t, memory, map[])
  {
    hide PdNo, PtNo, IsUser, Present, Target, TableOf, PageNo, Writable;
    forall va: Word | IsUser(va)
      ensures View(t, va) == None
    {
      UserIndexes(va);
    }
  }

  /** The kernel page at address n is mapped somewhere. */
  ghost predicate FrameInUse(t: Tables, n: nat)
    requires Valid(t)
  {
    exists u: Word :: IsUser(u) && FrameOf(t, u).Some? && FrameOf(t, u).value as nat == n
  }

  /** Filling an unused frame changes nothing that the table shows. */
  lemma FillUnused(t: Tables, memory: map<nat, Page>, space: map<nat, Frame>, n: nat, bytes: Page)
    requires Valid(t) && Shows(t, memory, space) && !FrameInUse(t, n)
    ensures Shows(t, memory[n := bytes], space)
  {
    hide View, IsUser, PageNo;
    forall va: Word | IsUser(va)
      ensures ShownAt(t, memory[n := bytes], space, va)
    {
      assert ShownAt(t, memory, space, va);
      if View(t, va).Some? { assert FrameOf(t, va).value as nat != n; }
    }
  }

  /** install_page: the page is free in the table just when it is free in space, and pagedir_set_page
      adds the filled frame to both. */
  lemma InstallShows(t: Tables, memory: map<nat, Page>, space: map<nat, Frame>, upage: Word, kpage: Word,
                     writable: bool, page: Option<Word>)
    requires Valid(t) && Shows(t, memory, space) && IsUser(upage) && KernelPage(kpage) && kpage as nat in memory
    requires page.Some? ==> KernelPage(page.value) && page.value as nat !in t.pts
    ensures GetPage(t, upage).None? <==> PageNo(upage) !in space
    ensures var (t', ok) := SetPage(t, upage, kpage, writable, page);
            && Valid(t')
            && Shows(t', memory, if ok then space[PageNo(upage) := Frame(memory[kpage as nat], writable)] else space)
  {
    hide View, IsUser, PageNo, PageOf, SetPage, KernelPage, GetPage, PgOfs;
    GetPageReads(t, upage);
    assert ShownAt(t, memory, space, upage);
    SetPageMaps(t, upage, kpage, writable, page);
    var (t', ok) := SetPage(t, upage, kpage, writable, page);
    if ok {
      var space' := space[PageNo(upage) := Frame(memory[kpage as nat], writable)];
      UserPageNumber(upage);
      forall va: Word | IsUser(va)
        ensures ShownAt(t', memory, space', va)
      {
        SamePage(va, upage);
        if PageOf(va) == PageOf(upage) {
          ViewOfPage(t', va, upage);
        } else {
          assert ShownAt(t, memory, space, va);
        }
      }
    }
  }

  /** The byte at offset o of page p, as a user access through the page table finds it. */
  ghost function SeenAt(t: Tables, memory: map<nat, Page>, p: nat, o: nat): Option<byte>
    requires Valid(t) && p < 0xC_0000 && o < 4096
  {
    match View(t, PageAddress(p))
    case None => None
    case Some(m) => if m.page as nat in memory then Some(memory[m.page as nat][o]) else None
  }

  lemma SeenIsShown(t: Tables, memory: map<nat, Page>, space: map<nat, Frame>, p: nat, o: nat)
    requires Valid(t) && Shows(t, memory, space) && p < 0xC_0000 && o < 4096
    ensures SeenAt(t, memory, p, o) == if p in space then Some(space[p].bytes[o]) else None
  {
    hide View, IsUser, PageNo, PgOfs;
    assert ShownAt(t, memory, space, PageAddress(p));
  }

  // ---------------------------------------------------------------
  // The pages that palloc_get_page has to give
  // ---------------------------------------------------------------

  /** pool are the free user pages, and tablePages what is given for the page table of each entry of
      the directory, where one can be had. */
  ghost predicate Stocked(t: Tables, pool: seq<Word>, tablePages: map<nat, Word>)
    requires Valid(t)
  {
    && (forall k | 0 <= k < |pool| :: KernelPage(pool[k]) && !FrameInUse(t, pool[k] as nat))
    && (forall j, k | 0 <= j < k < |pool| :: pool[j] as nat != pool[k] as nat)
    && (forall i | i in tablePages :: KernelPage(tablePages[i]))
    && (forall i | i in tablePages && i < 768 && t.pd[i] == 0 :: tablePages[i] as nat !in t.pts)
    && (forall i, j | i in tablePages && j in tablePages && i != j :: tablePages[i] as nat != tablePages[j] as nat)
    && (forall i | 0 <= i < 768 && t.pd[i] != 0 :: i in tablePages)
  }

  /** What lookup_page gets when it has to make the table for va. */
  function TablePage(entry: Word, tablePages: map<nat, Word>, i: nat): Option<Word> {
    if entry == 0 && i in tablePages then Some(tablePages[i]) else None
  }

  /** What setting a page does to the directory and to the frames in use. */
  lemma SetPageUses(t: Tables, upage: Word, kpage: Word, writable: bool, tablePages: map<nat, Word>)
    requires Valid(t) && IsUser(upage) && KernelPage(kpage) && Stocked(t, [], tablePages)
    ensures PdNo(upage) < 768
    ensures var page := TablePage(t.pd[PdNo(upage)], tablePages, PdNo(upage));
            && (page.Some? ==> KernelPage(page.value) && page.value as nat !in t.pts)
            && var (t', ok) := SetPage(t, upage, kpage, writable, page);
               && Valid(t') && (ok <==> PdNo(upage) in tablePages) && (!ok ==> t' == t)
               && Stocked(t', [], tablePages)
               && forall n | FrameInUse(t', n) :: FrameInUse(t, n) || n == kpage as nat
  {
    hide View, IsUser, PageNo, PageOf, KernelPage, PdNo, PtNo, Present, Target, TableOf, PdeCreate, PteCreateUser;
    hide Writable, FrameInUse;
    UserIndexes(upage);
    var i := PdNo(upage);
    var page := TablePage(t.pd[i], tablePages, i);
    SetPageMaps(t, upage, kpage, writable, page);
    WithTableKeeps(t, upage, page);
    if page.Some? { NewPde(page.value); }
    var (t', ok) := SetPage(t, upage, kpage, writable, page);
    forall n | FrameInUse(t', n)
      ensures FrameInUse(t, n) || n == kpage as nat
    {
      FrameFrom(t, t', upage, kpage, ok, n);
    }
  }

  lemma FrameFrom(t: Tables, t': Tables, upage: Word, kpage: Word, ok: bool, n: nat)
    requires Valid(t) && Valid(t') && OthersSame(t, t', upage) && IsUser(upage) && FrameInUse(t', n)
    requires if ok then View(t', upage).Some? && View(t', upage).value.page == kpage else t' == t
    ensures FrameInUse(t, n) || n == kpage as nat
  {
    hide View, PageOf, IsUser;
    var u: Word :| IsUser(u) && FrameOf(t', u).Some? && FrameOf(t', u).value as nat == n;
    if PageOf(u) == PageOf(upage) {
      ViewOfPage(t', u, upage);
    } else {
      assert FrameOf(t, u) == FrameOf(t', u);
    }
  }

  /** install_page with a page from the pool. */
  lemma InstallStocked(t: Tables, upage: Word, kpage: Word, pool: seq<Word>, writable: bool, tablePages: map<nat, Word>)
    requires Valid(t) && IsUser(upage) && Stocked(t, [kpage] + pool, tablePages)
    ensures PdNo(upage) < 768 && KernelPage(kpage) && !FrameInUse(t, kpage as nat)
    ensures var page := TablePage(t.pd[PdNo(upage)], tablePages, PdNo(upage));
            && (page.Some? ==> KernelPage(page.value) && page.value as nat !in t.pts)
            && var (t', ok) := SetPage(t, upage, kpage, writable, page);
               && Valid(t') && (ok <==> PdNo(upage) in tablePages)
               && Stocked(t', if ok then pool else [kpage] + pool, tablePages)
  {
    hide IsUser, KernelPage, PdNo, FrameInUse, SetPage, Valid;
    assert ([kpage] + pool)[0] == kpage && forall k | 0 <= k < |pool| :: ([kpage] + pool)[k + 1] == pool[k];
    SetPageUses(t, upage, kpage, writable, tablePages);
  }
}
