/** Two runs from boot in which an evicted page loses its bytes. */
module VmExamples {
  import opened Lists
  import opened Options
  import opened Bitmap
  import opened Bytes
  import opened Clock
  import opened VmModel
  import opened VmInvariant
  import opened VmTheorems
  import InodeIO

  ghost function Blank(): Page { Zeros(4096) }

  ghost function Anon(loaded: bool, slot: Option<nat>): Vme {
    Vme(VmAnon, true, loaded, 0, false, 0, 0, 4096, slot)
  }

  ghost function InFrame(f: nat): Pte { Pte(f, true, false, false) }

  lemma {:induction false} RunOn(s: Vm, steps: seq<Step>, s1: Vm, st: Step)
    requires Reaches(s, steps, s1) && Inv(s1) && Legal(s1, st)
    ensures Reaches(s, steps + [st], Do(s1, st))
    decreases |steps|
  {
    hide Inv, Legal, Do;
    if steps == [] {
      assert steps + [st] == [st];
      assert Reaches(Do(s1, st), [], Do(s1, st));
    } else {
      RunOn(Do(s, steps[0]), steps[1..], s1, st);
      assert (steps + [st])[1..] == steps[1..] + [st];
    }
  }

  // ---------------------------------------------------------------
  // A full swap device
  // ---------------------------------------------------------------

  /** One slot of swap, no files. */
  ghost function Small(): Vm { Boot(SwapSpace([false], [Blank()]), map[]) }

  ghost function OnePage(): Vm {
    Vm([0], Null, map[0 := Key(1, 0)], map[Key(1, 0) := Anon(true, None)], map[Key(1, 0) := InFrame(0)],
       map[0 := Blank()], SwapSpace([false], [Blank()]), map[], false, map[Key(1, 0) := Blank()])
  }

  ghost function TwoPages(): Vm {
    Vm([0, 1], Null, map[0 := Key(1, 0), 1 := Key(1, 1)],
       map[Key(1, 0) := Anon(true, None), Key(1, 1) := Anon(true, None)],
       map[Key(1, 0) := InFrame(0), Key(1, 1) := InFrame(1)], map[0 := Blank(), 1 := Blank()],
       SwapSpace([false], [Blank()]), map[], false, map[Key(1, 0) := Blank(), Key(1, 1) := Blank()])
  }

  /** Page 1 has gone to the only slot. */
  ghost function SlotTaken(): Vm {
    Vm([0], End, map[0 := Key(1, 0)], map[Key(1, 0) := Anon(true, None), Key(1, 1) := Anon(false, Some(0))],
       map[Key(1, 0) := InFrame(0), Key(1, 1) := Pte(1, false, false, false)], map[0 := Blank()],
       SwapSpace([true], [Blank()]), map[], false, map[Key(1, 0) := Blank(), Key(1, 1) := Blank()])
  }

  /** Page 2 has come into the second frame. */
  ghost function Crowded(): Vm {
    Vm([0, 1], End, map[0 := Key(1, 0), 1 := Key(1, 2)],
       map[Key(1, 0) := Anon(true, None), Key(1, 1) := Anon(false, Some(0)), Key(1, 2) := Anon(true, None)],
       map[Key(1, 0) := InFrame(0), Key(1, 1) := Pte(1, false, false, false), Key(1, 2) := InFrame(1)],
       map[0 := Blank(), 1 := Blank()], SwapSpace([true], [Blank()]), map[], false,
       map[Key(1, 0) := Blank(), Key(1, 1) := Blank(), Key(1, 2) := Blank()])
  }

  lemma FirstPage()
    ensures Legal(Small(), Zero(Key(1, 0), 0, false)) && MapZero(Small(), Key(1, 0), 0, false) == OnePage()
  {
  }

  lemma SecondPage()
    ensures Legal(OnePage(), Zero(Key(1, 1), 1, false)) && MapZero(OnePage(), Key(1, 1), 1, false) == TwoPages()
  {
  }

  lemma ThirdPage()
    ensures Legal(SlotTaken(), Zero(Key(1, 2), 1, false)) && MapZero(SlotTaken(), Key(1, 2), 1, false) == Crowded()
  {
  }

  /** With two frames the clock can only choose the second. */
  lemma SecondIsVictim(s: Vm)
    requires |s.lru| == 2 && HandOk(s.lru, s.hand) && s.lru[1] !in PinnedFrames(s)
    ensures HasVictim(s) && Victim(s) == s.lru[1]
    ensures Spared(s) <= {s.lru[1]}
  {
    assert HasCandidate(s.lru, PinnedFrames(s));
    OnlySecondVisited(s.lru, HandIndex(s.lru, s.hand), StopTime(s));
  }

  lemma {:induction false} OnlySecondVisited(list: seq<nat>, c: nat, k: nat)
    requires |list| == 2 && c < 2
    ensures Visited(list, c, k) <= {list[1]} && Visit(2, c, k) == 1
  {
    if k > 0 { OnlySecondVisited(list, c, k - 1); }
  }

  lemma FirstEviction()
    ensures HasVictim(TwoPages()) && Listed(TwoPages(), Victim(TwoPages())) && Victim(TwoPages()) == 1
    ensures CanSave(TwoPages(), 1, 1) && Evict(TwoPages(), 1) == SlotTaken()
  {
    hide Victim, Spared, Visit, Visited, StopTime, HasCandidate;
    var s := TwoPages();
    SecondIsVictim(s);
    var s1 := Search(s);
    assert s1 == s.(hand := At(1)) by { assert s1.ptes == s.ptes; }
    FirstSlot();
    assert SlotFree(s.swap);
    var s2 := Save(s1, 1, 1);
    assert s2 == s1.(swap := SwapSpace([true], [Blank()]), vmes := s1.vmes[Key(1, 1) := Anon(true, Some(0))]);
    assert Without([0, 1], 1) == [0];
    assert Release(s2, 1) == SlotTaken();
    assert Evict(s, 1) == Release(s2, 1);
  }

  lemma FirstSlot()
    ensures SwapOut(SwapSpace([false], [Blank()]), Blank()) == (SwapSpace([true], [Blank()]), Some(0))
    ensures SlotFree(SwapSpace([false], [Blank()]))
  {
    var sp := SwapSpace([false], [Blank()]);
    assert !sp.used[0];
    SwapOutFinds(sp, Blank());
    assert sp.used[0 := true] == [true] && sp.slots[0 := Blank()] == sp.slots;
  }

  lemma NoSlot()
    ensures !SlotFree(SwapSpace([true], [Blank()]))
  {
  }

  /** In the state reached by four steps on a machine with one slot of swap, the next eviction picks
      a page whose bytes are then neither in memory nor in swap nor in a file. */
  lemma SwapFullExample()
    ensures Reaches(Small(), [Zero(Key(1, 0), 0, false), Zero(Key(1, 1), 1, false), EvictBy(1),
                              Zero(Key(1, 2), 1, false)], Crowded())
    ensures HasVictim(Crowded()) && Victim(Crowded()) == 1 && Listed(Crowded(), 1)
    ensures var s := Evict(Crowded(), 1);
            1 !in s.frames && Key(1, 2) in s.vmes && Rebuild(s.vmes[Key(1, 2)], s.files, s.swap) == None
  {
    hide Small, OnePage, TwoPages, SlotTaken, Reaches, Legal, Inv, Evict, MapZero;
    CrowdedReached();
    CrowdedLoses();
  }

  lemma CrowdedReached()
    ensures Reaches(Small(), [Zero(Key(1, 0), 0, false), Zero(Key(1, 1), 1, false), EvictBy(1),
                              Zero(Key(1, 2), 1, false)], Crowded())
    ensures Inv(Crowded())
  {
    hide Small, OnePage, TwoPages, SlotTaken, Crowded, Reaches, Legal, Inv, Evict, MapZero;
    var a, b, c, d := Zero(Key(1, 0), 0, false), Zero(Key(1, 1), 1, false), EvictBy(1), Zero(Key(1, 2), 1, false);
    SmallStarts();
    FirstPage();
    RunOn(Small(), [], Small(), a);
    DoKeeps(Small(), a);
    SecondPage();
    RunOn(Small(), [] + [a], OnePage(), b);
    DoKeeps(OnePage(), b);
    FirstEviction();
    EvictLegal(TwoPages(), 1);
    RunOn(Small(), [] + [a] + [b], TwoPages(), c);
    DoKeeps(TwoPages(), c);
    ThirdPage();
    RunOn(Small(), [] + [a] + [b] + [c], SlotTaken(), d);
    DoKeeps(SlotTaken(), d);
    assert [] + [a] + [b] + [c] + [d] == [a, b, c, d];
  }

  lemma SmallStarts()
    ensures Inv(Small()) && Reaches(Small(), [], Small())
  {
  }

  lemma EvictLegal(s: Vm, current: nat)
    requires HasVictim(s) && Listed(s, Victim(s)) && CanSave(s, Victim(s), current)
    ensures Legal(s, EvictBy(current))
  {
  }

  lemma CrowdedLoses()
    ensures HasVictim(Crowded()) && Victim(Crowded()) == 1 && Listed(Crowded(), 1)
    ensures var s := Evict(Crowded(), 1);
            1 !in s.frames && Key(1, 2) in s.vmes && Rebuild(s.vmes[Key(1, 2)], s.files, s.swap) == None
  {
    hide Victim, Spared, Visit, Visited, StopTime, HasCandidate;
    var s := Crowded();
    SecondIsVictim(s);
    NoSlot();
    SwapOutFinds(s.swap, Blank());
  }

  // ---------------------------------------------------------------
  // Another thread's page at the same address
  // ---------------------------------------------------------------

  ghost function Marked(): Page { Patch(Blank(), 0, [1]) }

  ghost function FileEntry(loaded: bool): Vme { Vme(VmFile, true, loaded, 0, false, 0, 4096, 0, None) }

  /** One file of a page of zeros. */
  ghost function WithFile(): Vm { Boot(SwapSpace([], []), map[0 := FileData(Blank(), false)]) }

  /** Thread 2 has a page at address 5. */
  ghost function OtherThread(): Vm {
    WithFile().(lru := [0], pages := map[0 := Key(2, 5)], vmes := map[Key(2, 5) := Anon(true, None)],
                ptes := map[Key(2, 5) := InFrame(0)], frames := map[0 := Blank()], plain := map[Key(2, 5) := Blank()])
  }

  /** Thread 1 maps the file at the same address. */
  ghost function FileMapped(): Vm {
    OtherThread().(vmes := map[Key(2, 5) := Anon(true, None), Key(1, 5) := FileEntry(false)],
                   plain := map[Key(2, 5) := Blank(), Key(1, 5) := Blank()])
  }

  ghost function FileLoaded(): Vm {
    FileMapped().(lru := [0, 1], pages := map[0 := Key(2, 5), 1 := Key(1, 5)],
                  vmes := map[Key(2, 5) := Anon(true, None), Key(1, 5) := FileEntry(true)],
                  ptes := map[Key(2, 5) := InFrame(0), Key(1, 5) := InFrame(1)],
                  frames := map[0 := Blank(), 1 := Blank()])
  }

  /** Thread 1 writes a byte. */
  ghost function FileDirty(): Vm {
    FileLoaded().(ptes := map[Key(2, 5) := InFrame(0), Key(1, 5) := Pte(1, true, true, true)],
                  frames := map[0 := Blank(), 1 := Marked()],
                  plain := map[Key(2, 5) := Blank(), Key(1, 5) := Marked()])
  }

  lemma OtherSteps()
    ensures Inv(WithFile()) && Legal(WithFile(), Zero(Key(2, 5), 0, false))
    ensures MapZero(WithFile(), Key(2, 5), 0, false) == OtherThread()
  {
  }

  lemma FileIsBlank()
    ensures Backed(FileEntry(false), Blank()) && Image(FileEntry(false), Blank()) == Blank()
  {
  }

  lemma MapSteps()
    ensures Legal(OtherThread(), Insert(Key(1, 5), FileEntry(false)))
    ensures InsertVme(OtherThread(), Key(1, 5), FileEntry(false)).0 == FileMapped()
  {
    hide Image;
    FileIsBlank();
  }

  lemma LoadSteps()
    ensures Legal(FileMapped(), Load(Key(1, 5), 1)) && PageIn(FileMapped(), Key(1, 5), 1) == FileLoaded()
  {
    hide Image;
    FileIsBlank();
  }

  lemma UseSteps()
    requires Inv(FileLoaded())
    ensures Legal(FileLoaded(), Use(Key(1, 5), 0, [1])) && Do(FileLoaded(), Use(Key(1, 5), 0, [1])) == FileDirty()
  {
    hide Inv;
    UseParts(FileLoaded(), Key(1, 5));
  }

  lemma DirtyReached()
    ensures Inv(FileDirty())
    ensures Reaches(WithFile(), [Zero(Key(2, 5), 0, false), Insert(Key(1, 5), FileEntry(false)), Load(Key(1, 5), 1),
                                 Use(Key(1, 5), 0, [1])], FileDirty())
  {
    hide WithFile, OtherThread, FileMapped, FileLoaded, FileDirty, Reaches, Legal, Inv, MapZero, InsertVme, PageIn;
    hide FileEntry, Access;
    var a, b, c, d := Zero(Key(2, 5), 0, false), Insert(Key(1, 5), FileEntry(false)), Load(Key(1, 5), 1),
                      Use(Key(1, 5), 0, [1]);
    OtherSteps();
    NoSteps(WithFile());
    RunOn(WithFile(), [], WithFile(), a);
    DoKeeps(WithFile(), a);
    MapSteps();
    RunOn(WithFile(), [] + [a], OtherThread(), b);
    DoKeeps(OtherThread(), b);
    LoadSteps();
    RunOn(WithFile(), [] + [a] + [b], FileMapped(), c);
    DoKeeps(FileMapped(), c);
    UseSteps();
    RunOn(WithFile(), [] + [a] + [b] + [c], FileLoaded(), d);
    DoKeeps(FileLoaded(), d);
    assert [] + [a] + [b] + [c] + [d] == [a, b, c, d];
  }

  lemma NoSteps(s: Vm)
    ensures Reaches(s, [], s)
  {
  }

  /** Thread 1 maps a file, loads its page and writes to it; then, while thread 2 runs, the page is
      evicted. What goes to the file is thread 2's page at the same address: thread 1's byte is
      lost. */
  lemma OtherThreadExample()
    ensures Reaches(WithFile(), [Zero(Key(2, 5), 0, false), Insert(Key(1, 5), FileEntry(false)), Load(Key(1, 5), 1),
                                 Use(Key(1, 5), 0, [1])], FileDirty())
    ensures HasVictim(FileDirty()) && Victim(FileDirty()) == 1 && Listed(FileDirty(), 1)
    ensures FileDirty().frames[1] == Marked() && Marked()[0] == 1
    ensures var s := Evict(FileDirty(), 2);
            && !s.crashed && 1 !in s.frames && Key(1, 5) in s.vmes
            && Rebuild(s.vmes[Key(1, 5)], s.files, s.swap) == Some(Blank()) && Blank()[0] == 0
  {
    hide Reaches, Inv, Legal, WithFile, OtherThread, FileMapped, FileLoaded, Evict, Victim, HasVictim;
    DirtyReached();
    DirtyLost();
  }

  lemma DirtyLost()
    ensures HasVictim(FileDirty()) && Victim(FileDirty()) == 1 && Listed(FileDirty(), 1)
    ensures FileDirty().frames[1] == Marked()
    ensures var s := Evict(FileDirty(), 2);
            && !s.crashed && 1 !in s.frames && Key(1, 5) in s.vmes
            && Rebuild(s.vmes[Key(1, 5)], s.files, s.swap) == Some(Blank())
  {
    hide Victim, Spared, Visit, Visited, StopTime, HasCandidate, Image, Patch;
    var s := FileDirty();
    SecondIsVictim(s);
    var s1 := Search(s);
    FileIsBlank();
    PatchWhole(Blank(), Blank());
    assert Blank()[..4096] == Blank();
    var s2 := Save(s1, 1, 2);
    assert s2.files == s.files && s2.crashed == s.crashed;
    assert Image(FileEntry(false), Blank()) == Blank();
  }
}
