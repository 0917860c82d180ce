/** userprog/pagedir.c as it runs: words of the directory and of the page tables written in place.
    Each method is proved to take the step of the function that bears its name in PageTable. */
module PageDirectory {
  import opened Options
  import opened PageTable

  class PageDirectory {
    const pd: array<Word>
    var pts: map<nat, seq<Word>>

    ghost function State(): Tables
      reads this, pd
    {
      Tables(pd[..], pts)
    }

    /** pagedir_create: the kernel's half copied from the base directory, which maps no user page. */
    constructor (base: seq<Word>, pts: map<nat, seq<Word>>)
      requires |base| == 1024 && (forall i | 0 <= i < 768 :: base[i] == 0) && forall p | p in pts :: |pts[p]| == 1024
      ensures fresh(pd) && State() == Tables(base, pts) && Valid(State())
      ensures forall u: Word | IsUser(u) :: View(State(), u) == None
    {
      pd := new Word[1024](i requires 0 <= i < 1024 => base[i]);
      this.pts := pts;
      new;
      assert pd[..] == base;
      forall u: Word | IsUser(u)
        ensures View(State(), u) == None
      {
        UserIndexes(u);
      }
    }

    /** lookup_page: the table and index of va's entry. page is what palloc_get_page gives. */
    method LookupPage(va: Word, create: bool, page: Option<Word>) returns (pte: Option<(nat, nat)>)
      requires Valid(State()) && IsUser(va)
      requires page.Some? ==> KernelPage(page.value) && page.value as nat !in pts
      modifies this`pts, pd
      ensures Valid(State()) && State() == if create then WithTable(old(State()), va, page).0 else old(State())
      ensures pte.Some? <==> Entry(State(), va).Some?
      ensures pte.Some? ==> PdNo(va) < 768 && pte == Some((TableOf(pd[PdNo(va)]), PtNo(va)))
      ensures pte.Some? ==>
                    pte.value.0 in pts && pte.value.1 < |pts[pte.value.0]|
                    && pts[pte.value.0][pte.value.1] == Entry(State(), va).value
    {
      hide PdNo, PtNo, IsUser, Present, TableOf, PdeCreate, KernelPage, Writable;
      WithTableKeeps(State(), va, page);
      UserIndexes(va);
      if pd[PdNo(va)] == 0 {
        if !create || page.None? {
          return None;
        }
        pts := pts[page.value as nat := seq(1024, _ => 0)];
        pd[PdNo(va)] := PdeCreate(page.value);
      }
      pte := Some((TableOf(pd[PdNo(va)]), PtNo(va)));
    }

    /** *pte = e. */
    method StoreAt(ghost va: Word, pte: (nat, nat), e: Word)
      requires Valid(State()) && IsUser(va) && Entry(State(), va).Some? && PdNo(va) < 768
      requires pte == (TableOf(pd[PdNo(va)]), PtNo(va)) && pte.0 in pts && pte.1 < |pts[pte.0]|
      modifies this`pts
      ensures State() == Store(old(State()), va, e)
    {
      pts := pts[pte.0 := pts[pte.0][pte.1 := e]];
    }

    /** The page must not be mapped. */
    method SetPage(upage: Word, kpage: Word, writable: bool, page: Option<Word>) returns (ok: bool)
      requires Valid(State()) && PgOfs(upage) == 0 && KernelPage(kpage) && IsUser(upage) && View(State(), upage) == None
      requires page.Some? ==> KernelPage(page.value) && page.value as nat !in pts
      modifies this`pts, pd
      ensures (State(), ok) == PageTable.SetPage(old(State()), upage, kpage, writable, page)
      ensures Valid(State())
    {
      hide PdNo, PtNo, IsUser, Present, TableOf, PdeCreate, KernelPage, Writable, Valid, Store, PteCreateUser;
      hide WithTable, PgOfs;
      WithTableKeeps(State(), upage, page);
      SetPageMaps(State(), upage, kpage, writable, page);
      var pte := LookupPage(upage, true, page);
      if pte.None? {
        return false;
      }
      assert !Present(pts[pte.value.0][pte.value.1]);
      StoreAt(upage, pte.value, PteCreateUser(kpage, writable));
      ok := true;
    }

    method GetPage(uaddr: Word) returns (r: Option<Word>)
      requires Valid(State()) && IsUser(uaddr)
      modifies this`pts, pd
      ensures State() == old(State()) && r == PageTable.GetPage(State(), uaddr)
    {
      hide PdNo, PtNo, IsUser, Present, TableOf, Valid, Target, ByteIn, Entry, WithTable, KernelPage;
      var pte := LookupPage(uaddr, false, None);
      if pte.Some? && Present(pts[pte.value.0][pte.value.1]) {
        return Some(ByteIn(Target(pts[pte.value.0][pte.value.1]), uaddr));
      }
      r := None;
    }

    method ClearPage(upage: Word)
      requires Valid(State()) && PgOfs(upage) == 0 && IsUser(upage)
      modifies this`pts, pd
      ensures State() == PageTable.ClearPage(old(State()), upage) && Valid(State())
    {
      hide PdNo, PtNo, IsUser, Present, TableOf, Valid, Entry, WithTable, KernelPage, WithoutPresent, Store, PgOfs;
      ClearPageUnmaps(State(), upage);
      var pte := LookupPage(upage, false, None);
      if pte.Some? && Present(pts[pte.value.0][pte.value.1]) {
        StoreAt(upage, pte.value, WithoutPresent(pts[pte.value.0][pte.value.1]));
      }
    }

    method SetAccessed(vpage: Word, accessed: bool)
      requires Valid(State()) && IsUser(vpage)
      modifies this`pts, pd
      ensures State() == PageTable.SetAccessed(old(State()), vpage, accessed) && Valid(State())
    {
      hide PdNo, PtNo, IsUser, Present, TableOf, Valid, Entry, WithTable, KernelPage, WithAccessed, Store, Accessed;
      AccessedKeepsMappings(State(), vpage, accessed);
      var pte := LookupPage(vpage, false, None);
      if pte.Some? {
        StoreAt(vpage, pte.value, WithAccessed(pts[pte.value.0][pte.value.1], accessed));
      }
    }

    method SetDirty(vpage: Word, dirty: bool)
      requires Valid(State()) && IsUser(vpage)
      modifies this`pts, pd
      ensures State() == PageTable.SetDirty(old(State()), vpage, dirty) && Valid(State())
    {
      hide PdNo, PtNo, IsUser, Present, TableOf, Valid, Entry, WithTable, KernelPage, WithDirty, Store, Dirty;
      DirtyKeepsMappings(State(), vpage, dirty);
      var pte := LookupPage(vpage, false, None);
      if pte.Some? {
        StoreAt(vpage, pte.value, WithDirty(pts[pte.value.0][pte.value.1], dirty));
      }
    }

    /** The inner loop of pagedir_destroy. */
    method FreeFrames(pt: seq<Word>) returns (freed: seq<Word>)
      requires |pt| == 1024
      ensures freed == FramesFrom(pt, 0)
    {
      hide Present, Target, FramesFrom;
      freed := [];
      var k := 0;
      assert freed + FramesFrom(pt, 0) == FramesFrom(pt, 0);
      while k < 1024
        invariant 0 <= k <= 1024 && freed + FramesFrom(pt, k) == FramesFrom(pt, 0)
      {
        FramesStep(pt, k);
        if Present(pt[k]) {
          assert (freed + [Target(pt[k])]) + FramesFrom(pt, k + 1) == freed + FramesFrom(pt, k);
          freed := freed + [Target(pt[k])];
        } else {
          assert freed + FramesFrom(pt, k + 1) == freed + FramesFrom(pt, k);
        }
        k := k + 1;
      }
      FramesStep(pt, 0);
      assert freed + [] == freed;
    }

    /** The pages given to palloc_free_page, in order; address is the directory's own page. */
    method Destroy(address: Word) returns (freed: seq<Word>)
      requires Valid(State())
      ensures freed == FreedFrom(State(), 0) + [address]
    {
      hide Present, Target, TableOf, FramesFrom, FreedFrom;
      freed := [];
      var i := 0;
      ghost var t := State();
      assert freed + FreedFrom(t, 0) == FreedFrom(t, 0);
      while i < 768
        invariant 0 <= i <= 768 && freed + FreedFrom(t, i) == FreedFrom(t, 0)
      {
        PresentIsNonzero(t, i);
        FreedStep(t, i);
        if Present(pd[i]) {
          var frames := FreeFrames(pts[TableOf(pd[i])]);
          assert (freed + frames + [Target(pd[i])]) + FreedFrom(t, i + 1) == freed + FreedFrom(t, i);
          freed := freed + frames + [Target(pd[i])];
        } else {
          assert freed + FreedFrom(t, i + 1) == freed + FreedFrom(t, i);
        }
        i := i + 1;
      }
      FreedStep(t, 0);
      assert freed + [] == freed;
      freed := freed + [address];
    }

    static lemma PresentIsNonzero(t: Tables, i: nat)
      requires Valid(t) && i < 768
      ensures Present(t.pd[i]) <==> t.pd[i] != 0
    {
      ZeroAbsent();
    }
  }
}
