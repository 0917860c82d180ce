/** Splitting a command line in place (strtok_r and strlcpy in lib/string.c, extract_command in
    userprog/process.c). */
module ArgTokens {
  import opened Bytes
  import opened Options

  const SPACE: byte := 32

  /** The C string at position at of memory s: the bytes up to the first zero. */
  ghost function CStr(s: seq<byte>, at: nat): (r: seq<byte>)
    ensures forall i | 0 <= i < |r| :: r[i] != 0
    decreases |s| - at
  {
    if at >= |s| || s[at] == 0 then [] else [s[at]] + CStr(s, at + 1)
  }

  /** Length of the word that s starts with. */
  ghost function WordLen(s: seq<byte>): (n: nat)
    ensures n <= |s|
    ensures forall i | 0 <= i < n :: s[i] != SPACE
    ensures n < |s| ==> s[n] == SPACE
  {
    if s == [] || s[0] == SPACE then 0 else 1 + WordLen(s[1..])
  }

  /** The words of s, in order: its maximal runs without a space. */
  ghost function Tokens(s: seq<byte>): (r: seq<seq<byte>>)
    decreases |s|
  {
    if s == [] then []
    else if s[0] == SPACE then Tokens(s[1..])
    else [s[..WordLen(s)]] + Tokens(s[WordLen(s)..])
  }

  ghost function NoSpaces(s: seq<byte>): seq<byte> {
    if s == [] then [] else (if s[0] == SPACE then [] else [s[0]]) + NoSpaces(s[1..])
  }

  ghost function Concat(tokens: seq<seq<byte>>): seq<byte> {
    if tokens == [] then [] else tokens[0] + Concat(tokens[1..])
  }

  lemma {:induction false} NoSpacesInWord(w: seq<byte>, rest: seq<byte>)
    requires forall i | 0 <= i < |w| :: w[i] != SPACE
    ensures NoSpaces(w + rest) == w + NoSpaces(rest)
  {
    if w == [] {
      assert w + rest == rest;
    } else {
      assert (w + rest)[1..] == w[1..] + rest;
      NoSpacesInWord(w[1..], rest);
    }
  }

  /** No word is empty or has a space, and together they are the text without its spaces. */
  lemma {:induction false} TokensAreWords(s: seq<byte>)
    ensures forall t | t in Tokens(s) :: t != [] && SPACE !in t && forall b | b in t :: b in s
    ensures Concat(Tokens(s)) == NoSpaces(s)
    decreases |s|
  {
    if s != [] {
      if s[0] == SPACE {
        TokensAreWords(s[1..]);
      } else {
        var n := WordLen(s);
        TokensAreWords(s[n..]);
        assert s == s[..n] + s[n..];
        NoSpacesInWord(s[..n], s[n..]);
      }
    }
  }

  /** A word followed by the end or a space is the first token. */
  lemma {:induction false} WordFirst(w: seq<byte>, rest: seq<byte>)
    requires w != [] && (forall i | 0 <= i < |w| :: w[i] != SPACE) && (rest == [] || rest[0] == SPACE)
    ensures Tokens(w + rest) == [w] + Tokens(rest)
  {
    WordLenIs(w, rest);
    assert (w + rest)[..|w|] == w && (w + rest)[|w|..] == rest;
  }

  lemma {:induction false} WordLenIs(w: seq<byte>, rest: seq<byte>)
    requires (forall i | 0 <= i < |w| :: w[i] != SPACE) && (rest == [] || rest[0] == SPACE)
    ensures WordLen(w + rest) == |w|
  {
    if w != [] {
      assert (w + rest)[1..] == w[1..] + rest;
      WordLenIs(w[1..], rest);
    } else {
      assert w + rest == rest;
    }
  }

  lemma {:induction false} CStrSplit(s: seq<byte>, a: nat, b: nat)
    requires a <= b <= |s| && forall i | a <= i < b :: s[i] != 0
    ensures CStr(s, a) == s[a..b] + CStr(s, b)
    decreases b - a
  {
    if a == b {
      assert s[a..b] == [];
    } else {
      CStrSplit(s, a + 1, b);
      assert s[a..b] == [s[a]] + s[a + 1..b];
    }
  }

  lemma {:induction false} CStrDepends(s: seq<byte>, t: seq<byte>, a: nat)
    requires |s| == |t| && forall i | a <= i < |s| :: s[i] == t[i]
    ensures CStr(s, a) == CStr(t, a)
    decreases |s| - a
  {
    if a < |s| && s[a] != 0 { CStrDepends(s, t, a + 1); }
  }

  /** Ends the word at s..e: the byte at e becomes zero. */
  lemma CutWord(m: seq<byte>, m': seq<byte>, s: nat, e: nat)
    requires s < e < |m| && |m'| == |m| && (forall i | s <= i < e :: m[i] != 0 && m[i] != SPACE)
    requires m[e] == 0 || m[e] == SPACE
    requires m' == m[e := 0]
    ensures CStr(m', s) == m[s..e]
    ensures Tokens(CStr(m, s)) == [m[s..e]] + Tokens(CStr(m', if m[e] == 0 then e else e + 1))
  {
    CStrSplit(m, s, e);
    CStrSplit(m', s, e);
    assert m'[s..e] == m[s..e];
    WordFirst(m[s..e], CStr(m, e));
    if m[e] == SPACE {
      CStrDepends(m, m', e + 1);
      assert CStr(m, e) == [SPACE] + CStr(m, e + 1);
      assert ([SPACE] + CStr(m, e + 1))[1..] == CStr(m, e + 1);
    }
  }

  /** strtok_r with delimiter " ", from position from: the next token's position, and where the next
      call is to go on. */
  method StrtokR(m: array<byte>, from: nat, ghost end: nat) returns (token: Option<nat>, save: nat)
    requires from <= end < m.Length && m[end] == 0
    modifies m
    ensures from <= save <= end && m[end] == 0
    ensures forall i | 0 <= i < m.Length && !(from <= i < save) :: m[i] == old(m[i])
    ensures token.None? ==> Tokens(CStr(old(m[..]), from)) == [] && m[..] == old(m[..])
    ensures token.Some? ==>
              && from <= token.value < save && old(m[from]) != 0 && Tokens(CStr(old(m[..]), from)) != []
              && CStr(m[..], token.value) == Tokens(CStr(old(m[..]), from))[0]
              && token.value + |CStr(m[..], token.value)| <= save
              && Tokens(CStr(m[..], save)) == Tokens(CStr(old(m[..]), from))[1..]
  {
    hide Tokens, CStr;
    ghost var was := m[..];
    var s := from;
    while m[s] == SPACE || m[s] == 0
      modifies {}
      invariant from <= s <= end && m[..] == was && Tokens(CStr(was, s)) == Tokens(CStr(was, from))
      invariant forall i | from <= i < s :: m[i] == SPACE
      decreases end - s
    {
      if m[s] == 0 {
        EmptyString(was, s);
        return None, s;
      }
      SkipSpace(was, s);
      s := s + 1;
    }
    var t := s;
    while m[s] != SPACE && m[s] != 0
      modifies {}
      invariant t <= s <= end && m[..] == was
      invariant forall i | t <= i < s :: m[i] != SPACE && m[i] != 0
      decreases end - s
    {
      s := s + 1;
    }
    if m[s] != 0 {
      m[s] := 0;
      save := s + 1;
    } else {
      save := s;
    }
    assert m[..] == was[s := 0];
    CutWord(was, m[..], t, s);
    token := Some(t);
  }

  lemma EmptyString(m: seq<byte>, s: nat)
    requires s < |m| && m[s] == 0
    ensures Tokens(CStr(m, s)) == []
  {
  }

  lemma SkipSpace(m: seq<byte>, s: nat)
    requires s < |m| && m[s] == SPACE
    ensures Tokens(CStr(m, s)) == Tokens(CStr(m, s + 1))
  {
    assert CStr(m, s) == [SPACE] + CStr(m, s + 1);
    assert ([SPACE] + CStr(m, s + 1))[1..] == CStr(m, s + 1);
  }

  /** strlcpy into an array: at most size - 1 bytes and a zero. */
  method Strlcpy(dst: array<byte>, src: seq<byte>, size: nat)
    requires size > 0 && 0 !in src && (|src| < dst.Length || size <= dst.Length)
    modifies dst
    ensures CStr(dst[..], 0) == if |src| < size then src else src[..size - 1]
    ensures dst[if |src| < size then |src| else size - 1] == 0
  {
    var n := if |src| < size then |src| else size - 1;
    var i := 0;
    while i < n
      invariant 0 <= i <= n && dst[..i] == src[..i]
    {
      dst[i] := src[i];
      i := i + 1;
    }
    dst[n] := 0;
    CStrSplit(dst[..], 0, n);
    assert dst[..][0..n] == src[..n];
  }

  /** The command that extract_command splits: cut to what fits a page. */
  ghost function Command(command: seq<byte>): seq<byte> {
    if |command| < 4096 then command else command[..4095]
  }

  /** extract_command: argv[0..argc] are the positions of the command's words in the copy, and a null
      pointer follows them. argv has room for 100. */
  method ExtractCommand(command: seq<byte>, argv: array<Option<nat>>) returns (copy: array<byte>, argc: nat)
    requires 0 !in command && argv.Length == 100 && |Tokens(Command(command))| < 100
    modifies argv
    ensures fresh(copy) && argc == |Tokens(Command(command))| && argv[argc] == None
    ensures forall i | 0 <= i < argc ::
              && argv[i].Some? && CStr(copy[..], argv[i].value) == Tokens(Command(command))[i]
              && argv[i].value + |Tokens(Command(command))[i]| < copy.Length
  {
    hide Tokens, CStr, PlacedBefore;
    copy := new byte[|command| + 1];
    Strlcpy(copy, command, 4096);
    ghost var tokens := Tokens(Command(command));
    ghost var end := |Command(command)|;
    argc := 0;
    var temp, save := StrtokR(copy, 0, end);
    argv[0] := temp;
    NonePlaced(argv[..], copy[..], tokens, save);
    while temp.Some?
      invariant argc <= |tokens| && save <= end && copy[end] == 0 && argv[argc] == temp
      invariant temp.None? ==> argc == |tokens|
      invariant temp.Some? ==> argc < |tokens| && CStr(copy[..], temp.value) == tokens[argc]
      invariant temp.Some? ==> temp.value + |tokens[argc]| <= save && Tokens(CStr(copy[..], save)) == tokens[argc + 1..]
      invariant PlacedBefore(argv[..], copy[..], tokens, argc, save)
      decreases |tokens| - argc
    {
      ghost var m, from, p := copy[..], save, argv[..];
      argc := argc + 1;
      temp, save := StrtokR(copy, save, end);
      argv[argc] := temp;
      OneMorePlaced(p, argv[..], m, copy[..], tokens, argc - 1, from, save);
    }
    AllPlaced(argv[..], copy[..], tokens, save);
  }

  /** The first n words are where argv says, and end at or before save. */
  ghost predicate PlacedBefore(argv: seq<Option<nat>>, m: seq<byte>, tokens: seq<seq<byte>>, n: nat, save: nat)
    requires n <= |argv| && n <= |tokens|
  {
    forall i | 0 <= i < n :: argv[i].Some? && argv[i].value + |tokens[i]| <= save && CStr(m, argv[i].value) == tokens[i]
  }

  lemma NonePlaced(argv: seq<Option<nat>>, m: seq<byte>, tokens: seq<seq<byte>>, save: nat)
    ensures PlacedBefore(argv, m, tokens, 0, save)
  {
  }

  lemma AllPlaced(argv: seq<Option<nat>>, m: seq<byte>, tokens: seq<seq<byte>>, save: nat)
    requires |tokens| <= |argv| && PlacedBefore(argv, m, tokens, |tokens|, save)
    ensures forall i | 0 <= i < |tokens| ::
              argv[i].Some? && CStr(m, argv[i].value) == tokens[i] && argv[i].value + |tokens[i]| <= save
  {
  }

  /** The words placed so far stay when the next one is cut off after them. */
  lemma OneMorePlaced(argv: seq<Option<nat>>, argv': seq<Option<nat>>, m: seq<byte>, m': seq<byte>,
                      tokens: seq<seq<byte>>, n: nat, from: nat, save: nat)
    requires n < |tokens| && n + 1 < |argv| == |argv'| && argv' == argv[n + 1 := argv'[n + 1]]
    requires PlacedBefore(argv, m, tokens, n, from)
    requires argv[n].Some? && argv[n].value + |tokens[n]| <= from && CStr(m, argv[n].value) == tokens[n]
    requires from <= save && from < |m| == |m'| && (forall i | 0 <= i < from :: m'[i] == m[i])
    requires m' != m ==> m[from] != 0
    ensures PlacedBefore(argv', m', tokens, n + 1, save)
  {
    hide CStr;
    forall i | 0 <= i < n + 1
      ensures argv'[i].Some? && argv'[i].value + |tokens[i]| <= save && CStr(m', argv'[i].value) == tokens[i]
    {
      assert argv'[i] == argv[i];
      if m' != m {
        CStrEnds(m, argv[i].value);
        CStrKept(m, m', argv[i].value, from);
      }
    }
  }

  lemma {:induction false} CStrEnds(m: seq<byte>, a: nat)
    requires a < |m|
    ensures a + |CStr(m, a)| <= |m| && (a + |CStr(m, a)| < |m| ==> m[a + |CStr(m, a)|] == 0)
    decreases |m| - a
  {
    if m[a] != 0 && a + 1 < |m| { CStrEnds(m, a + 1); }
  }

  /** A string that ends below from is not touched by changes from there on. */
  lemma {:induction false} CStrKept(m: seq<byte>, m': seq<byte>, a: nat, from: nat)
    requires |m| == |m'| && a + |CStr(m, a)| < from <= |m| && forall i | 0 <= i < from :: m'[i] == m[i]
    ensures CStr(m', a) == CStr(m, a)
    decreases |m| - a
  {
    if m[a] != 0 { CStrKept(m, m', a + 1, from); }
  }
}
