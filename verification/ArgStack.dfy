/** The initial user stack (start_process in userprog/process.c): strings, alignment, argument
    pointers, argv, argc and a return address, pushed downwards from the top of user memory. */
module ArgStack {
  import opened Bytes
  import opened Options
  import opened ArgTokens

  const TOP: nat := 0xC000_0000
  const BASE: nat := 0xBFFF_F000

  // ---------------------------------------------------------------
  // What the stack should hold
  // ---------------------------------------------------------------

  function WordBytes(w: nat): (r: seq<byte>)
    ensures |r| == 4
  {
    [w % 256, w / 256 % 256, w / 65536 % 256, w / 16777216 % 256]
  }

  /** A 32-bit word in memory, low byte first. */
  function WordAt(m: seq<byte>, i: nat): nat
    requires i + 4 <= |m|
  {
    (m[i] as int) + 256 * (m[i + 1] as int) + 65536 * (m[i + 2] as int) + 16777216 * (m[i + 3] as int)
  }

  lemma WordRoundTrip(m: seq<byte>, i: nat, w: nat)
    requires w < 0x1_0000_0000 && i + 4 <= |m| && m[i..i + 4] == WordBytes(w)
    ensures WordAt(m, i) == w
  {
    var b := m[i..i + 4];
    assert m[i] == b[0] && m[i + 1] == b[1] && m[i + 2] == b[2] && m[i + 3] == b[3];
    DigitsBack(w);
  }

  lemma DigitsBack(w: nat)
    requires w < 0x1_0000_0000
    ensures w == w % 256 + 256 * (w / 256 % 256) + 65536 * (w / 65536 % 256) + 16777216 * (w / 16777216 % 256)
  {
    var a := w / 256;
    var b := a / 256;
    assert w / 65536 == b && w / 16777216 == b / 256;
  }

  /** The strings one after the other, each with its null. */
  ghost function Strings(tokens: seq<seq<byte>>): seq<byte> {
    if tokens == [] then [] else tokens[0] + [0] + Strings(tokens[1..])
  }

  /** The words that point at them when the first is at address a. */
  ghost function Pointers(a: nat, tokens: seq<seq<byte>>): (r: seq<byte>)
    ensures |r| == 4 * |tokens|
    decreases |tokens|
  {
    if tokens == [] then [] else WordBytes(a) + Pointers(a + |tokens[0]| + 1, tokens[1..])
  }

  /** Where the strings start, where the words end, and the final stack pointer. */
  ghost function StringsStart(tokens: seq<seq<byte>>): int { TOP - |Strings(tokens)| }

  ghost function WordsEnd(tokens: seq<seq<byte>>): int { StringsStart(tokens) - StringsStart(tokens) % 4 }

  ghost function FinalEsp(tokens: seq<seq<byte>>): int { WordsEnd(tokens) - 4 * (|tokens| + 4) }

  /** The page of stack is enough. */
  ghost predicate Fits(tokens: seq<seq<byte>>) { FinalEsp(tokens) >= BASE }

  /** All that is pushed, from the final stack pointer up; pad is what lies in the gap. */
  ghost function StackImage(tokens: seq<seq<byte>>, pad: seq<byte>): seq<byte>
    requires Fits(tokens)
  {
    WordBytes(0) + (WordBytes(|tokens|) + (WordBytes(FinalEsp(tokens) + 12)
    + (Pointers(StringsStart(tokens), tokens) + (WordBytes(0) + (pad + Strings(tokens))))))
  }

  /** The string behind argv[i], if the pointer leads into the page. */
  ghost function ArgAt(m: seq<byte>, argv: nat, i: nat): Option<seq<byte>>
    requires |m| == 4096 && argv >= BASE && argv + 4 * i + 4 <= TOP
  {
    var a := WordAt(m, argv - BASE + 4 * i);
    if BASE <= a < TOP then Some(CStr(m, a - BASE)) else None
  }

  /** argv[i] is in the page and is a null pointer. */
  ghost predicate NullAt(m: seq<byte>, argv: nat, i: nat)
    requires |m| == 4096
  {
    argv >= BASE && argv + 4 * i + 4 <= TOP && WordAt(m, argv - BASE + 4 * i) == 0
  }

  /** The arguments that a program finds from its initial stack pointer: argc, argv and the strings
      behind it; none if anything leads out of the page or argv does not end in a null pointer. */
  ghost function Decode(m: seq<byte>, esp: nat): Option<seq<seq<byte>>>
    requires |m| == 4096
  {
    if esp < BASE || esp + 12 > TOP then None
    else
      var argc, argv := WordAt(m, esp - BASE + 4), WordAt(m, esp - BASE + 8);
      if !NullAt(m, argv, argc) then None
      else if forall i | 0 <= i < argc :: ArgAt(m, argv, i).Some?
      then Some(seq(argc, i requires 0 <= i < argc && ArgAt(m, argv, i).Some? => ArgAt(m, argv, i).value))
      else None
  }

  // ---------------------------------------------------------------
  // The stack decodes to the arguments
  // ---------------------------------------------------------------

  lemma {:induction false} StringsSuffix(tokens: seq<seq<byte>>, i: nat)
    requires i <= |tokens|
    ensures |Strings(tokens[i..])| <= |Strings(tokens)|
    ensures Strings(tokens)[|Strings(tokens)| - |Strings(tokens[i..])|..] == Strings(tokens[i..])
  {
    if i == 0 {
      assert tokens[0..] == tokens;
    } else {
      StringsSuffix(tokens[1..], i - 1);
      assert tokens[1..][i - 1..] == tokens[i..];
      var head, rest := tokens[0] + [0], Strings(tokens[1..]);
      assert Strings(tokens) == head + rest;
      var k := |rest| - |Strings(tokens[i..])|;
      assert (head + rest)[|head| + k..] == rest[k..];
    }
  }

  lemma {:induction false} PointerAt(a: nat, tokens: seq<seq<byte>>, i: nat)
    requires i < |tokens|
    ensures |Strings(tokens[i..])| <= |Strings(tokens)|
    ensures Pointers(a, tokens)[4 * i..4 * i + 4] == WordBytes(a + (|Strings(tokens)| - |Strings(tokens[i..])|))
    decreases |tokens|
  {
    if i == 0 {
      assert tokens[0..] == tokens;
    } else {
      PointerAt(a + |tokens[0]| + 1, tokens[1..], i - 1);
      assert tokens[1..][i - 1..] == tokens[i..];
      var rest := Pointers(a + |tokens[0]| + 1, tokens[1..]);
      assert (WordBytes(a) + rest)[4 * i..4 * i + 4] == rest[4 * (i - 1)..4 * (i - 1) + 4];
    }
  }

  lemma CStrIs(m: seq<byte>, x: nat, t: seq<byte>)
    requires x + |t| < |m| && m[x..x + |t|] == t && m[x + |t|] == 0 && 0 !in t
    ensures CStr(m, x) == t
  {
    forall i | x <= i < x + |t|
      ensures m[i] != 0
    {
      assert m[i] == t[i - x];
    }
    CStrSplit(m, x, x + |t|);
  }

  /** The first part of what memory holds from p on. */
  lemma Peel(m: seq<byte>, p: nat, part: seq<byte>, rest: seq<byte>)
    requires p <= |m| && m[p..] == part + rest
    ensures p + |part| <= |m| && m[p..p + |part|] == part && m[p + |part|..] == rest
  {
    var q := p + |part|;
    assert |m[p..]| == |part| + |rest|;
    assert (part + rest)[..|part|] == part && (part + rest)[|part|..] == rest;
    assert m[p..q] == m[p..][..|part|] && m[q..] == m[p..][|part|..];
  }

  /** Seven parts laid end to end, four of them words. */
  lemma Layers(m: seq<byte>, p: nat, w0: seq<byte>, w1: seq<byte>, w2: seq<byte>, ptrs: seq<byte>, w3: seq<byte>,
               pad: seq<byte>, t: seq<byte>)
    requires p <= |m| && m[p..] == w0 + (w1 + (w2 + (ptrs + (w3 + (pad + t)))))
    requires |w0| == |w1| == |w2| == |w3| == 4
    ensures p + 16 + |ptrs| + |pad| + |t| == |m|
    ensures m[p..p + 4] == w0 && m[p + 4..p + 8] == w1 && m[p + 8..p + 12] == w2 && m[p + 12..p + 12 + |ptrs|] == ptrs
    ensures m[p + 12 + |ptrs|..p + 16 + |ptrs|] == w3 && m[p + 16 + |ptrs| + |pad|..] == t
  {
    var r5 := pad + t;
    var r4 := w3 + r5;
    var r3 := ptrs + r4;
    var r2 := w2 + r3;
    Peel(m, p, w0, w1 + r2);
    Peel(m, p + 4, w1, r2);
    Peel(m, p + 8, w2, r3);
    Peel(m, p + 12, ptrs, r4);
    Peel(m, p + 12 + |ptrs|, w3, r5);
    Peel(m, p + 16 + |ptrs|, pad, t);
  }

  /** Where things are: p is the index of the final stack pointer in the page, s that of the strings. */
  ghost predicate Places(tokens: seq<seq<byte>>, pad: seq<byte>, p: nat, s: nat) {
    && p + BASE == FinalEsp(tokens) && s + BASE == StringsStart(tokens)
    && p + 16 + 4 * |tokens| + |pad| == s && s + |Strings(tokens)| == 4096 && p % 4 == 0
  }

  lemma PlacesAre(tokens: seq<seq<byte>>, pad: seq<byte>)
    requires Fits(tokens) && |pad| == StringsStart(tokens) % 4
    ensures Places(tokens, pad, FinalEsp(tokens) - BASE, StringsStart(tokens) - BASE)
    ensures FinalEsp(tokens) % 4 == 0
  {
    hide Strings;
  }

  /** Argument i: its pointer and the string there. */
  lemma ArgumentAt(m: seq<byte>, tokens: seq<seq<byte>>, i: nat, q: nat, s: nat)
    requires |m| == 4096 && i < |tokens| && 0 !in tokens[i] && q + 4 * |tokens| <= |m| && s <= |m|
    requires m[s..] == Strings(tokens) && m[q..q + 4 * |tokens|] == Pointers(s + BASE, tokens)
    ensures ArgAt(m, q + BASE, i) == Some(tokens[i])
  {
    hide WordBytes, Pointers, Strings, WordAt, CStr;
    StringsSuffix(tokens, i);
    StringsHead(tokens, i);
    var x := |Strings(tokens)| - |Strings(tokens[i..])|;
    PointerRead(m, q, s + BASE, tokens, i, x);
    SuffixOfSuffix(m, s, x);
    StringStart(m, s + x, tokens[i], Strings(tokens[i + 1..]));
  }

  lemma PointerRead(m: seq<byte>, q: nat, s: nat, tokens: seq<seq<byte>>, i: nat, x: nat)
    requires i < |tokens| && q + 4 * |tokens| <= |m| && m[q..q + 4 * |tokens|] == Pointers(s, tokens)
    requires x == |Strings(tokens)| - |Strings(tokens[i..])| && s + x < TOP
    ensures WordAt(m, q + 4 * i) == s + x
  {
    hide WordBytes, Pointers, Strings, WordAt;
    PointerAt(s, tokens, i);
    SliceOfSlice(m, q, q + 4 * |tokens|, 4 * i, 4 * i + 4);
    WordRoundTrip(m, q + 4 * i, s + x);
  }

  lemma SuffixOfSuffix(m: seq<byte>, a: nat, x: nat)
    requires a + x <= |m|
    ensures m[a..][x..] == m[a + x..]
  {
  }

  lemma StringsHead(tokens: seq<seq<byte>>, i: nat)
    requires i < |tokens|
    ensures Strings(tokens[i..]) == tokens[i] + [0] + Strings(tokens[i + 1..])
  {
    assert tokens[i..][1..] == tokens[i + 1..];
  }

  lemma StringStart(m: seq<byte>, y: nat, t: seq<byte>, rest: seq<byte>)
    requires y <= |m| && m[y..] == t + [0] + rest && 0 !in t
    ensures CStr(m, y) == t
  {
    assert forall k | 0 <= k < |t| :: m[y + k] == m[y..][k] == t[k];
    assert m[y + |t|] == m[y..][|t|] == 0;
    assert m[y..y + |t|] == t;
    CStrIs(m, y, t);
  }

  lemma DecodeIs(m: seq<byte>, esp: nat, argv: nat, tokens: seq<seq<byte>>)
    requires |m| == 4096 && BASE <= esp && esp + 16 + 4 * |tokens| <= TOP
    requires WordAt(m, esp - BASE + 4) == |tokens| && WordAt(m, esp - BASE + 8) == argv == esp + 12
    requires NullAt(m, argv, |tokens|)
    requires forall i | 0 <= i < |tokens| :: ArgAt(m, argv, i) == Some(tokens[i])
    ensures Decode(m, esp) == Some(tokens)
  {
    hide WordAt, ArgAt;
    var d := Decode(m, esp);
    assert d.Some? && |d.value| == |tokens|;
    assert d.value == tokens;
  }

  /** Reading the finished stack from its pointer gives back the arguments, in order; the pointer is
      word-aligned and the return address is 0. */
  lemma StackDecodes(m: seq<byte>, tokens: seq<seq<byte>>, pad: seq<byte>)
    requires |m| == 4096 && Fits(tokens) && (forall t | t in tokens :: 0 !in t) && |pad| == StringsStart(tokens) % 4
    requires m[FinalEsp(tokens) - BASE..] == StackImage(tokens, pad)
    ensures Decode(m, FinalEsp(tokens)) == Some(tokens)
    ensures FinalEsp(tokens) % 4 == 0 && WordAt(m, FinalEsp(tokens) - BASE) == 0
  {
    hide WordBytes, Pointers, Strings, WordAt, CStr, ArgAt, Decode;
    PlacesAre(tokens, pad);
    var p, n, s := FinalEsp(tokens) - BASE, |tokens|, StringsStart(tokens) - BASE;
    Layers(m, p, WordBytes(0), WordBytes(n), WordBytes(FinalEsp(tokens) + 12),
        Pointers(StringsStart(tokens), tokens), WordBytes(0), pad,
           Strings(tokens));
    hide FinalEsp, StringsStart, Fits, StackImage;
    WordRoundTrip(m, p, 0);
    WordRoundTrip(m, p + 4, n);
    WordRoundTrip(m, p + 8, p + BASE + 12);
    WordRoundTrip(m, p + 12 + 4 * n, 0);
    var argv := p + BASE + 12;
    forall i | 0 <= i < n
      ensures ArgAt(m, argv, i) == Some(tokens[i])
    {
      assert tokens[i] in tokens;
      ArgumentAt(m, tokens, i, p + 12, s);
    }
    assert NullAt(m, argv, n);
    DecodeIs(m, p + BASE, argv, tokens);
  }

  // ---------------------------------------------------------------
  // Building it
  // ---------------------------------------------------------------

  /** strlen. */
  method Strlen(m: array<byte>, at: nat, ghost end: nat) returns (n: nat)
    requires at <= end < m.Length && m[end] == 0
    ensures n == |CStr(m[..], at)| && at + n <= end && m[..][at..at + n] == CStr(m[..], at) && m[at + n] == 0
  {
    n := 0;
    while m[at + n] != 0
      invariant at + n <= end && forall i | at <= i < at + n :: m[i] != 0
      decreases end - (at + n)
    {
      n := n + 1;
    }
    CStrSplit(m[..], at, at + n);
  }

  /** One push: w goes just below what has been laid down. */
  method Push(page: array<byte>, esp: nat, w: seq<byte>, ghost was: seq<byte>,
              ghost laid: seq<byte>) returns (esp': nat)
    requires page.Length == |was| == 4096 && BASE + |w| <= esp && esp + |laid| == TOP
    requires page[..] == Patch(was, esp - BASE, laid)
    modifies page
    ensures esp' == esp - |w| && page[..] == Patch(was, esp' - BASE, w + laid)
  {
    hide Patch;
    esp' := esp - |w|;
    PutBytes(page, esp' - BASE, w);
    PatchPrepend(was, esp' - BASE, w, laid);
  }

  /** The loop that pushes the strings, last first; addr are their addresses. */
  method PushStrings(page: array<byte>, copy: array<byte>, argv: array<Option<nat>>, argc: nat,
                     ghost tokens: seq<seq<byte>>)
    returns (esp: nat, addr: array<nat>)
    requires page.Length == 4096 && page != copy && argc == |tokens| <= argv.Length && BASE <= StringsStart(tokens)
    requires forall i | 0 <= i < argc ::
               argv[i].Some? && CStr(copy[..], argv[i].value) == tokens[i] && argv[i].value + |tokens[i]| < copy.Length
    modifies page
    ensures fresh(addr) && addr.Length == argc && forall i | 0 <= i < argc :: addr[i] == TOP - |Strings(tokens[i..])|
    ensures esp == StringsStart(tokens) && page[..] == Patch(old(page[..]), esp - BASE, Strings(tokens))
  {
    hide Patch, Strings, CStr;
    addr := new nat[argc](_ => 0);
    var i := argc;
    esp := TOP;
    ghost var was := page[..];
    NoStrings(tokens);
    PatchNothing(was, 4096, []);
    while i > 0
      modifies page, addr
      invariant 0 <= i <= argc && BASE <= esp == TOP - |Strings(tokens[i..])|
      invariant page[..] == Patch(was, esp - BASE, Strings(tokens[i..]))
      invariant forall j | i <= j < argc :: addr[j] == TOP - |Strings(tokens[j..])|
    {
      i := i - 1;
      var at := argv[i].value;
      TerminatedAt(copy[..], at);
      var n := Strlen(copy, at, at + |tokens[i]|);
      StringsHead(tokens, i);
      StringsSuffix(tokens, i);
      var w := copy[at..at + n + 1];
      assert w == tokens[i] + [0];
      esp := Push(page, esp, w, was, Strings(tokens[i + 1..]));
      addr[i] := esp;
    }
    assert tokens[0..] == tokens;
  }

  lemma NoStrings(tokens: seq<seq<byte>>)
    ensures Strings(tokens[|tokens|..]) == []
  {
  }

  lemma TerminatedAt(m: seq<byte>, a: nat)
    requires a + |CStr(m, a)| < |m|
    ensures m[a + |CStr(m, a)|] == 0
  {
    CStrEnds(m, a);
  }

  /** The loop that pushes the pointers, last first. */
  method PushPointers(page: array<byte>, esp0: nat, addr: array<nat>, ghost tokens: seq<seq<byte>>,
                      ghost was: seq<byte>, ghost laid: seq<byte>)
    returns (esp: nat)
    requires page.Length == |was| == 4096 && addr.Length == |tokens| && StringsStart(tokens) >= 0
    requires forall i | 0 <= i < |tokens| :: addr[i] == TOP - |Strings(tokens[i..])|
    requires BASE + 4 * |tokens| <= esp0 && esp0 + |laid| == TOP && page[..] == Patch(was, esp0 - BASE, laid)
    modifies page
    ensures esp == esp0 - 4 * |tokens| && page[..] == Patch(was, esp - BASE,
            Pointers(StringsStart(tokens), tokens) + laid)
  {
    hide Patch, Strings, WordBytes, Pointers;
    esp := esp0;
    var i := addr.Length;
    NoPointers(tokens);
    NoStrings(tokens);
    assert [] + laid == laid;
    while i > 0
      modifies page
      invariant 0 <= i <= |tokens| && esp == esp0 - 4 * (|tokens| - i)
      invariant |Strings(tokens[i..])| <= TOP
      invariant page[..] == Patch(was, esp - BASE, Pointers(TOP - |Strings(tokens[i..])|, tokens[i..]) + laid)
      invariant esp + |Pointers(TOP - |Strings(tokens[i..])|, tokens[i..]) + laid| == TOP
    {
      i := i - 1;
      StringsSuffix(tokens, i);
      PointersHead(tokens, i);
      ghost var rest := Pointers(TOP - |Strings(tokens[i + 1..])|, tokens[i + 1..]);
      esp := Push(page, esp, WordBytes(addr[i]), was, rest + laid);
      assert (WordBytes(addr[i]) + rest) + laid == WordBytes(addr[i]) + (rest + laid);
    }
    assert tokens[0..] == tokens;
  }

  lemma NoPointers(tokens: seq<seq<byte>>)
    ensures forall a: nat :: Pointers(a, tokens[|tokens|..]) == []
  {
  }

  lemma PointersHead(tokens: seq<seq<byte>>, i: nat)
    requires i < |tokens| && |Strings(tokens[i..])| <= TOP
    ensures |Strings(tokens[i + 1..])| <= TOP
    ensures Pointers(TOP - |Strings(tokens[i..])|, tokens[i..])
         == WordBytes(TOP - |Strings(tokens[i..])|) + Pointers(TOP - |Strings(tokens[i + 1..])|, tokens[i + 1..])
  {
    StringsHead(tokens, i);
    assert tokens[i..][1..] == tokens[i + 1..];
  }

  /** The part of start_process that lays out the arguments: all of it ends up in the stack page. */
  method PushArguments(page: array<byte>, copy: array<byte>, argv: array<Option<nat>>, argc: nat,
                       ghost tokens: seq<seq<byte>>)
    returns (esp: nat)
    requires page.Length == 4096 && page != copy && argc == |tokens| <= argv.Length && Fits(tokens)
    requires forall i | 0 <= i < argc ::
               argv[i].Some? && CStr(copy[..], argv[i].value) == tokens[i] && argv[i].value + |tokens[i]| < copy.Length
    modifies page
    ensures esp == FinalEsp(tokens)
    ensures page[esp - BASE..] == StackImage(tokens, old(page[WordsEnd(tokens) - BASE..StringsStart(tokens) - BASE]))
    ensures page[..esp - BASE] == old(page[..esp - BASE])
  {
    hide Patch, Strings, WordBytes, Pointers;
    ghost var was := page[..];
    var addr: array<nat>;
    esp, addr := PushStrings(page, copy, argv, argc, tokens);
    while esp % 4 != 0
      modifies {}
      invariant WordsEnd(tokens) <= esp <= StringsStart(tokens)
      decreases esp
    {
      esp := esp - 1;
    }
    assert esp == WordsEnd(tokens);
    ghost var pad := was[WordsEnd(tokens) - BASE..StringsStart(tokens) - BASE];
    Gap(was, WordsEnd(tokens) - BASE, StringsStart(tokens) - BASE, Strings(tokens));
    ghost var laid := pad + Strings(tokens);
    esp := Push(page, esp, WordBytes(0), was, laid);
    laid := WordBytes(0) + laid;
    esp := PushPointers(page, esp, addr, tokens, was, laid);
    laid := Pointers(StringsStart(tokens), tokens) + laid;
    esp := Push(page, esp, WordBytes(esp), was, laid);
    laid := WordBytes(FinalEsp(tokens) + 12) + laid;
    esp := Push(page, esp, WordBytes(argc), was, laid);
    laid := WordBytes(|tokens|) + laid;
    esp := Push(page, esp, WordBytes(0), was, laid);
    LaidOver(was, esp - BASE, StackImage(tokens, pad));
  }

  /** Leaving a gap as it was. */
  lemma Gap(was: seq<byte>, p: nat, q: nat, w: seq<byte>)
    requires p <= q && q + |w| <= |was|
    ensures Patch(was, q, w) == Patch(was, p, was[p..q] + w)
  {
    var l, r := Patch(was, q, w), Patch(was, p, was[p..q] + w);
    forall i | 0 <= i < |was|
      ensures l[i] == r[i]
    {
      PatchAt(was, q, w, i);
      PatchAt(was, p, was[p..q] + w, i);
    }
  }

  lemma LaidOver(was: seq<byte>, p: nat, w: seq<byte>)
    requires p + |w| == |was|
    ensures Patch(was, p, w)[p..] == w && Patch(was, p, w)[..p] == was[..p]
  {
  }

  /** From the command line to the initial stack: what the program finds there is the command's words,
      in order, if there are fewer than 100 and they fit the page. */
  method InitialStack(command: seq<byte>, page: array<byte>) returns (esp: nat)
    requires 0 !in command && page.Length == 4096
    requires |Tokens(Command(command))| < 100 && Fits(Tokens(Command(command)))
    modifies page
    ensures BASE <= esp && esp + 16 <= TOP && esp % 4 == 0 && WordAt(page[..], esp - BASE) == 0
    ensures Decode(page[..], esp) == Some(Tokens(Command(command)))
  {
    hide Tokens, CStr, Strings, StackImage, Decode, WordAt;
    ghost var tokens := Tokens(Command(command));
    var argv := new Option<nat>[100](_ => None);
    var copy, argc := ExtractCommand(command, argv);
    ghost var pad := page[WordsEnd(tokens) - BASE..StringsStart(tokens) - BASE];
    esp := PushArguments(page, copy, argv, argc, tokens);
    NoNulls(command);
    StackDecodes(page[..], tokens, pad);
  }

  lemma NoNulls(command: seq<byte>)
    requires 0 !in command
    ensures forall t | t in Tokens(Command(command)) :: 0 !in t
  {
    TokensAreWords(Command(command));
  }
}
