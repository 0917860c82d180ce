/** Archive headers in ustar format (lib/ustar.c), as the "ustar Interchange Format" section of
    IEEE Std 1003.1 lays them out. */
module Ustar {
  import opened ArgTokens
  import opened Bytes
  import opened Options
  import opened Printf

  const SLASH: byte := 47
  const DOT: byte := 46

  /** The type flags of a regular file and of a directory. */
  const REGULAR: byte := 48
  const DIRECTORY: byte := 53

  // ---------------------------------------------------------------
  // Names
  // ---------------------------------------------------------------

  predicate Antisocial(name: seq<byte>) {
    || [SLASH] <= name
    || [DOT, SLASH] <= name
    || [DOT, DOT, SLASH] <= name
  }

  /** What follows the first slash. */
  function AfterSlash(name: seq<byte>): (r: seq<byte>)
    requires SLASH in name
    ensures |r| < |name|
    ensures forall b | b in r :: b in name
  {
    if name[0] == SLASH then name[1..] else AfterSlash(name[1..])
  }

  lemma AntisocialHasSlash(name: seq<byte>)
    requires Antisocial(name)
    ensures SLASH in name
  {
    if [SLASH] <= name {
      assert name[0] == SLASH;
    } else if [DOT, SLASH] <= name {
      assert name[1] == SLASH;
    } else {
      assert name[2] == SLASH;
    }
  }

  lemma DotIsSocial()
    ensures !Antisocial([DOT])
  {
    assert [DOT][0] != SLASH;
  }

  /** strip_antisocial_prefixes. */
  function Strip(name: seq<byte>): (r: seq<byte>)
    ensures !Antisocial(r) && r != [] && r != [DOT, DOT]
    ensures |r| <= |name| || r == [DOT]
    ensures forall b | b in r :: b in name || b == DOT
    decreases |name|
  {
    if Antisocial(name) then
      AntisocialHasSlash(name);
      Strip(AfterSlash(name))
    else if name == [] || name == [DOT, DOT] then
      DotIsSocial();
      [DOT]
    else name
  }

  /** Stripping a stripped name changes nothing. */
  lemma StripIdempotent(name: seq<byte>)
    ensures Strip(Strip(name)) == Strip(name)
  {
  }

  // ---------------------------------------------------------------
  // Octal fields
  // ---------------------------------------------------------------

  function ToByte(c: char): byte { c as int % 256 }

  ghost function AsBytes(s: seq<char>): (r: seq<byte>)
    ensures |r| == |s| && forall i | 0 <= i < |s| :: r[i] == ToByte(s[i])
  {
    seq(|s|, i requires 0 <= i < |s| => ToByte(s[i]))
  }

  predicate OctalDigit(b: byte) { 48 <= b <= 55 }

  ghost function OctalNum(s: seq<byte>): nat {
    if s == [] then 0 else 8 * OctalNum(s[..|s| - 1]) + (if s[|s| - 1] >= 48 then s[|s| - 1] - 48 else 0)
  }

  /** "%0<width>o". */
  function OctalConversion(width: nat): Conversion {
    Conversion(false, false, false, false, true, false, width, -1)
  }

  ghost function OctalText(v: nat, width: nat): seq<byte> {
    AsBytes(Text(v, false, false, Oct, OctalConversion(width)))
  }

  predicate OctalChar(c: char) { '0' <= c <= '7' }

  lemma {:induction false} RawOctal(v: nat, cnt: nat)
    ensures forall i | 0 <= i < |Raw(v, Oct, false, cnt)| :: OctalChar(Raw(v, Oct, false, cnt)[i])
    decreases v
  {
    if v > 0 {
      QuotientRemainder(v, Oct);
      RawOctal(Quotient(v, Oct), cnt + 1);
      var d := Remainder(v, Oct);
      assert d < 8 && DigitChar(d, Oct) == "0123456789abcdef"[d] && OctalChar(DigitChar(d, Oct));
    }
  }

  lemma {:induction false} ReverseOctal(s: seq<char>)
    requires forall i | 0 <= i < |s| :: OctalChar(s[i])
    ensures forall i | 0 <= i < |Reverse(s)| :: OctalChar(Reverse(s)[i])
  {
    if s != [] { ReverseOctal(s[1..]); }
  }

  lemma {:induction false} OctalNumIs(s: seq<char>)
    requires forall i | 0 <= i < |s| :: OctalChar(s[i])
    ensures OctalNum(AsBytes(s)) == ValueOf(s, Oct)
  {
    if s != [] {
      OctalNumIs(s[..|s| - 1]);
      assert AsBytes(s)[..|s| - 1] == AsBytes(s[..|s| - 1]);
    }
  }

  /** The field that snprintf writes: width digits that stand for the value. */
  lemma OctalTextIs(v: nat, width: nat)
    requires 0 < width <= 22 && v < EightTo(width)
    ensures |OctalText(v, width)| == width && OctalNum(OctalText(v, width)) == v
    ensures forall i | 0 <= i < width :: OctalDigit(OctalText(v, width)[i])
  {
    hide EightTo, Raw, Reverse, ValueOf, OctalNum;
    var c := OctalConversion(width);
    var raw := Raw(v, Oct, false, 0);
    var buf := Buffer(v, Oct, c);
    RawIsShort(v, Oct, false, 0, width);
    RawOctal(v, 0);
    assert forall i | 0 <= i < |buf| :: OctalChar(buf[i]);
    ReverseOctal(buf);
    DigitsReadBack(v, Oct, c);
    var pad := Repeat('0', width - |buf|);
    ZerosBefore(pad, Reverse(buf), Oct);
    var t := Text(v, false, false, Oct, c);
    assert t == pad + Reverse(buf);
    OctalNumIs(t);
  }

  /** parse_octal_field from offset ofs on, with 32-bit overflow; None is failure. */
  ghost function ParseOctal(s: seq<byte>, ofs: nat, value: nat): Option<nat>
    decreases |s| - ofs
  {
    if ofs >= |s| then None
    else if OctalDigit(s[ofs]) then
      (if value > 0xFFFF_FFFF / 8 then None else ParseOctal(s, ofs + 1, s[ofs] - 48 + value * 8))
    else if s[ofs] == 32 || s[ofs] == 0 then (if ofs > 0 then Some(value) else None)
    else None
  }

  lemma {:induction false} OctalNumGrows(s: seq<byte>, n: nat)
    requires n <= |s|
    ensures OctalNum(s[..n]) <= OctalNum(s)
    decreases |s|
  {
    if n < |s| {
      OctalNumGrows(s[..|s| - 1], n);
      assert s[..|s| - 1][..n] == s[..n];
    } else {
      assert s[..n] == s;
    }
  }

  /** The field is n octal digits, then a space or a null, and they stand for v, a 32-bit number. */
  ghost predicate OctalFieldOf(s: seq<byte>, n: nat, v: nat) {
    && 0 < n < |s| && (forall i | 0 <= i < n :: OctalDigit(s[i])) && (s[n] == 32 || s[n] == 0)
    && OctalNum(s[..n]) == v < 0x1_0000_0000
  }

  lemma NextOctal(s: seq<byte>, ofs: nat)
    requires ofs < |s| && OctalDigit(s[ofs])
    ensures OctalNum(s[..ofs + 1]) == OctalNum(s[..ofs]) * 8 + (s[ofs] - 48)
  {
    assert s[..ofs + 1][..ofs] == s[..ofs];
  }

  lemma FieldAtLeast(s: seq<byte>, m: nat, n: nat, v: nat)
    requires m <= n && OctalFieldOf(s, n, v)
    ensures OctalNum(s[..m]) <= v
  {
    hide OctalNum;
    OctalNumGrows(s[..n], m);
    assert s[..n][..m] == s[..m];
  }

  lemma {:induction false} ParseOctalFrom(s: seq<byte>, ofs: nat, v: nat)
    requires ofs <= |s| && (forall i | 0 <= i < ofs :: OctalDigit(s[i])) && OctalNum(s[..ofs]) < 0x1_0000_0000
    ensures ParseOctal(s, ofs, OctalNum(s[..ofs])) == Some(v) <==> exists n: nat :: OctalFieldOf(s, n, v)
    decreases |s| - ofs
  {
    hide OctalNum;
    if ofs < |s| && OctalDigit(s[ofs]) {
      NextOctal(s, ofs);
      if OctalNum(s[..ofs]) > 0xFFFF_FFFF / 8 {
        forall n: nat | OctalFieldOf(s, n, v)
          ensures n <= ofs
        {
          if n > ofs { FieldAtLeast(s, ofs + 1, n, v); }
        }
      } else {
        ParseOctalFrom(s, ofs + 1, v);
      }
    } else if ofs < |s| && ofs > 0 && (s[ofs] == 32 || s[ofs] == 0) {
      forall n: nat | OctalFieldOf(s, n, v)
        ensures n == ofs
      {
      }
      assert OctalNum(s[..ofs]) == v ==> OctalFieldOf(s, ofs, v);
    }
  }

  /** parse_octal_field reads a field exactly when it is octal digits ended by a space or a null that
      stand for a 32-bit number, and then as that number. */
  lemma ParseOctalIs(s: seq<byte>, v: nat)
    ensures ParseOctal(s, 0, 0) == Some(v) <==> exists n: nat :: OctalFieldOf(s, n, v)
  {
    NoNumber(s[..0]);
    ParseOctalFrom(s, 0, v);
  }

  method ParseOctalField(s: seq<byte>) returns (value: Option<nat>)
    ensures value == ParseOctal(s, 0, 0)
  {
    hide ParseOctal;
    var v: nat := 0;
    var ofs := 0;
    while ofs < |s|
      invariant 0 <= ofs <= |s| && ParseOctal(s, 0, 0) == ParseOctal(s, ofs, v)
    {
      ParseStep(s, ofs, v);
      var c := s[ofs];
      if OctalDigit(c) {
        if v > 0xFFFF_FFFF / 8 {
          return None;
        }
        v := c - 48 + v * 8;
      } else if c == 32 || c == 0 {
        return if ofs > 0 then Some(v) else None;
      } else {
        return None;
      }
      ofs := ofs + 1;
    }
    ParseEnd(s, v);
    value := None;
  }

  lemma ParseStep(s: seq<byte>, ofs: nat, v: nat)
    requires ofs < |s|
    ensures ParseOctal(s, ofs, v) ==
              if OctalDigit(s[ofs]) then (if v > 0xFFFF_FFFF / 8 then None
                  else ParseOctal(s, ofs + 1, s[ofs] - 48 + v * 8))
              else if s[ofs] == 32 || s[ofs] == 0 then (if ofs > 0 then Some(v) else None)
              else None
  {
  }

  lemma ParseEnd(s: seq<byte>, v: nat)
    ensures ParseOctal(s, |s|, v) == None
  {
  }

  // ---------------------------------------------------------------
  // The header
  // ---------------------------------------------------------------

  /** A field of n bytes that starts with w. */
  ghost function Pad(w: seq<byte>, n: nat): (r: seq<byte>)
    requires |w| <= n
    ensures |r| == n
  {
    w + Zeros(n - |w|)
  }

  const ZERO_ID: seq<byte> := [48, 48, 48, 48, 48, 48, 48]
  const MAGIC: seq<byte> := [117, 115, 116, 97, 114]
  const ROOT: seq<byte> := [114, 111, 111, 116]

  function Mode(kind: byte): nat { if kind == REGULAR then 420 else 493 }

  /** A field of width octal digits and a null. */
  ghost function FieldOf(v: nat, width: nat): (r: seq<byte>)
    ensures |r| == width + 1
  {
    if |OctalText(v, width)| == width then OctalText(v, width) + [0] else Zeros(width + 1)
  }

  lemma FieldOfIs(v: nat, width: nat)
    requires 0 < width <= 22 && v < EightTo(width)
    ensures |OctalText(v, width)| == width && FieldOf(v, width) == OctalText(v, width) + [0]
  {
    hide OctalText, EightTo;
    OctalTextIs(v, width);
  }

  /** Name, mode, owner, group, size and time: the fields before the checksum. */
  ghost function Head(name: seq<byte>, kind: byte, size: nat): (r: seq<byte>)
    requires |name| <= 100
    ensures |r| == 148
  {
    Pad(name, 100) + FieldOf(Mode(kind), 7) + Pad(ZERO_ID, 8) + Pad(ZERO_ID, 8) + FieldOf(size, 11)
        + FieldOf(1136102400, 11)
  }

  lemma EightToBounds()
    ensures EightTo(7) == 2097152 && EightTo(11) == 8589934592
  {
  }

  /** The type flag and the fields after it: the link name, magic, version, user, group, and the
      empty rest. */
  ghost function Tail(kind: byte): (r: seq<byte>)
    ensures |r| == 356
  {
    [kind] + Zeros(100) + Pad(MAGIC, 6) + [48, 48] + Pad(ROOT, 32) + Pad(ROOT, 32) + Zeros(183)
  }

  ghost function Sum(s: seq<byte>): nat {
    if s == [] then 0 else Sum(s[..|s| - 1]) + s[|s| - 1]
  }

  lemma {:induction false} SumBound(s: seq<byte>)
    ensures Sum(s) <= 255 * |s|
  {
    if s != [] { SumBound(s[..|s| - 1]); }
  }

  lemma {:induction false} SumSplit(s: seq<byte>, t: seq<byte>)
    ensures Sum(s + t) == Sum(s) + Sum(t)
    decreases |t|
  {
    if t == [] {
      assert s + t == s;
    } else {
      assert (s + t)[..|s + t| - 1] == s + t[..|t| - 1];
      SumSplit(s, t[..|t| - 1]);
    }
  }

  /** The sum of a header's bytes, the checksum field taken for spaces. */
  ghost function Checksum(h: seq<byte>): nat
    requires |h| == 512
  {
    Sum(h[..148]) + 8 * 32 + Sum(h[156..])
  }

  /** calculate_chksum. */
  method CalculateChksum(h: seq<byte>) returns (chksum: nat)
    requires |h| == 512
    ensures chksum == Checksum(h) < 0x1_0000_0000
  {
    hide Sum;
    chksum := 0;
    var i := 0;
    SumNone(h[..0]);
    SumNone(h[156..156]);
    while i < 512
      invariant 0 <= i <= 512
      invariant i <= 148 ==> chksum == Sum(h[..i])
      invariant 148 <= i <= 156 ==> chksum == Sum(h[..148]) + 32 * (i - 148)
      invariant 156 <= i ==> chksum == Sum(h[..148]) + 256 + Sum(h[156..i])
    {
      if i < 148 {
        SumNext(h, 0, i);
      } else if 156 <= i {
        SumNext(h, 156, i);
      }
      var inField := 148 <= i && i < 156;
      chksum := chksum + if inField then 32 else h[i];
      i := i + 1;
    }
    assert h[156..512] == h[156..];
    SumBound(h[..148]);
    SumBound(h[156..]);
  }

  lemma SumNone(s: seq<byte>)
    requires |s| == 0
    ensures Sum(s) == 0
  {
  }

  lemma SumNext(h: seq<byte>, a: nat, i: nat)
    requires a <= i < |h|
    ensures Sum(h[a..i + 1]) == Sum(h[a..i]) + h[i]
    ensures h[0..i] == h[..i]
  {
    assert h[a..i + 1][..i - a] == h[a..i];
  }

  /** A complete header; name is stripped. */
  ghost function Whole(name: seq<byte>, kind: byte, size: nat): (r: seq<byte>)
    requires |name| <= 100
    ensures |r| == 512
  {
    Head(name, kind, size) + FieldOf(Sum(Head(name, kind, size)) + 256 + Sum(Tail(kind)), 7) + Tail(kind)
  }

  lemma ChksumFits(head: seq<byte>, tail: seq<byte>)
    requires |head| == 148 && |tail| == 356
    ensures Sum(head) + 256 + Sum(tail) < EightTo(7)
  {
    hide Sum, EightTo;
    EightToBounds();
    SumBound(head);
    SumBound(tail);
  }

  // ---------------------------------------------------------------
  // Composing it
  // ---------------------------------------------------------------

  /** Writing into a field that is still zero. */
  lemma FillField(x: seq<byte>, n: nat, y: seq<byte>, w: seq<byte>)
    requires |w| <= n
    ensures Patch(x + Zeros(n) + y, |x|, w) == x + Pad(w, n) + y
  {
    var l, r := Patch(x + Zeros(n) + y, |x|, w), x + Pad(w, n) + y;
    forall i | 0 <= i < |l|
      ensures l[i] == r[i]
    {
      PatchAt(x + Zeros(n) + y, |x|, w, i);
    }
  }

  /** The next field of n bytes gets w; before is what stands left of the fields t laid so far. */
  method PutField(h: array<byte>, at: nat, n: nat, w: seq<byte>, ghost before: seq<byte>,
                  ghost t: seq<byte>) returns (ghost t': seq<byte>)
    requires h.Length == 512 && |w| <= n && at == |before| + |t| && at + n <= 512
    requires h[..] == before + t + Zeros(512 - at)
    modifies h
    ensures t' == t + Pad(w, n) && |t'| == |t| + n && h[..] == before + t' + Zeros(512 - at - n)
  {
    hide Patch;
    t' := t + Pad(w, n);
    assert Zeros(512 - at) == Zeros(n) + Zeros(512 - at - n);
    assert before + t + Zeros(512 - at) == (before + t) + Zeros(n) + Zeros(512 - at - n);
    FillField(before + t, n, Zeros(512 - at - n), w);
    PutBytes(h, at, w);
    assert (before + t) + Pad(w, n) == before + t';
  }

  /** snprintf of "%0<width>o" into a field one byte longer. */
  method OctalField(v: nat, width: nat) returns (w: seq<byte>)
    requires 0 < width <= 22 && v < EightTo(width) && v < 0x1_0000_0000
    ensures w == FieldOf(v, width)
  {
    hide Text, EightTo, OctalText, FieldOf, Aux.Valid;
    FieldOfIs(v, width);
    var buffer := new char[width + 1](_ => '0');
    var aux := new Aux(buffer, width + 1);
    FormatInteger(v, false, false, Oct, OctalConversion(width), aux);
    ghost var text := Text(v, false, false, Oct, OctalConversion(width));
    assert aux.text == [] + text == text;
    OctalTextDef(v, width);
    var n := aux.Finish();
    w := CharBytes(buffer);
    FieldFromChars(text, buffer[..], w, width);
  }

  method CharBytes(buffer: array<char>) returns (w: seq<byte>)
    ensures w == AsBytes(buffer[..])
  {
    w := seq(buffer.Length, i requires 0 <= i < buffer.Length reads buffer => ToByte(buffer[i]));
  }

  lemma OctalTextDef(v: nat, width: nat)
    ensures OctalText(v, width) == AsBytes(Text(v, false, false, Oct, OctalConversion(width)))
  {
  }

  lemma FieldFromChars(text: seq<char>, buffer: seq<char>, w: seq<byte>, width: nat)
    requires |text| == width && |buffer| == width + 1 && buffer[..width] == text[..width] && buffer[width] == '\0'
             && w == AsBytes(buffer)
    ensures w == AsBytes(text) + [0]
  {
    forall i | 0 <= i < width
      ensures w[i] == AsBytes(text)[i]
    {
      assert buffer[i] == buffer[..width][i] == text[..width][i] == text[i];
    }
  }

  /** The fields before the checksum. */
  method PutHead(h: array<byte>, name: seq<byte>, kind: byte, size: nat)
    requires h.Length == 512 && |name| <= 99 && size < 0x1_0000_0000 && h[..] == Zeros(512)
    modifies h
    ensures h[..] == Head(name, kind, size) + Zeros(364)
  {
    hide EightTo, FieldOf, Pad, Zeros;
    EightToBounds();
    assert h[..] == [] + [] + Zeros(512);
    ghost var t := PutField(h, 0, 100, name, [], []);
    var mode := OctalField(Mode(kind), 7);
    var sizeField := OctalField(size, 11);
    var time := OctalField(1136102400, 11);
    PadFull(mode);
    PadFull(sizeField);
    PadFull(time);
    t := PutField(h, 100, 8, mode, [], t);
    t := PutField(h, 108, 8, ZERO_ID, [], t);
    t := PutField(h, 116, 8, ZERO_ID, [], t);
    t := PutField(h, 124, 12, sizeField, [], t);
    t := PutField(h, 136, 12, time, [], t);
    assert [] + Pad(name, 100) == Pad(name, 100);
    assert t == Head(name, kind, size);
    assert [] + t == t;
  }

  lemma PadFull(w: seq<byte>)
    ensures Pad(w, |w|) == w
  {
  }

  /** The fields after it; the group is written before the user. */
  method PutTail(h: array<byte>, kind: byte, ghost head: seq<byte>)
    requires h.Length == 512 && |head| == 148 && h[..] == head + Zeros(364)
    modifies h
    ensures h[..] == head + Zeros(8) + Tail(kind)
  {
    hide Pad, Zeros, Patch;
    ghost var before := head + Zeros(8);
    assert Zeros(364) == Zeros(8) + Zeros(356) by { ZerosJoin(8, 356); }
    assert h[..] == before + [] + Zeros(356);
    ghost var t := PutField(h, 156, 1, [kind], before, []);
    t := PutField(h, 157, 100, [], before, t);
    t := PutField(h, 257, 6, MAGIC, before, t);
    t := PutField(h, 263, 2, [48, 48], before, t);
    ghost var front := t;
    t := PutField(h, 265, 32, [], before, t);
    t := PutField(h, 297, 32, ROOT, before, t);
    PadsAre(kind);
    assert h[..] == (before + front) + Zeros(32) + (Pad(ROOT, 32) + Zeros(183));
    FillField(before + front, 32, Pad(ROOT, 32) + Zeros(183), ROOT);
    PutBytes(h, 265, ROOT);
    assert (before + front) + Pad(ROOT, 32) + (Pad(ROOT, 32) + Zeros(183)) == before
           + (front + Pad(ROOT, 32) + Pad(ROOT, 32) + Zeros(183));
    assert front == [kind] + Zeros(100) + Pad(MAGIC, 6) + [48, 48];
  }

  lemma ZerosJoin(a: nat, b: nat)
    ensures Zeros(a + b) == Zeros(a) + Zeros(b)
  {
  }

  lemma PadsAre(kind: byte)
    ensures Pad([kind], 1) == [kind] && [] + [kind] == [kind] && Pad([], 100) == Zeros(100)
            && Pad([48, 48], 2) == [48, 48]
    ensures Pad([], 32) == Zeros(32)
  {
  }

  /** ustar_make_header for an int size, given as the 32-bit word that "%o" prints. */
  method MakeHeader(fileName: seq<byte>, kind: byte, size: nat, h: array<byte>) returns (ok: bool)
    requires h.Length == 512 && (kind == REGULAR || kind == DIRECTORY) && size < 0x1_0000_0000
    modifies h
    ensures ok <==> |Strip(fileName)| <= 99
    ensures ok ==> h[..] == Whole(Strip(fileName), kind, size)
    ensures !ok ==> h[..] == old(h[..])
  {
    hide Head, Tail, Pad, Zeros, Patch, FieldOf, Sum, EightTo;
    var name := Strip(fileName);
    if |name| > 99 {
      return false;
    }
    ClearAll(h);
    PutHead(h, name, kind, size);
    PutTail(h, kind, Head(name, kind, size));
    ghost var head, tail := Head(name, kind, size), Tail(kind);
    var chksum := CalculateChksum(h[..]);
    Halves(head, Zeros(8), tail);
    ChksumFits(head, tail);
    var field := OctalField(chksum, 7);
    PadFull(field);
    FillField(head, 8, tail, field);
    PutBytes(h, 148, field);
    ok := true;
  }

  method ClearAll(h: array<byte>)
    requires h.Length == 512
    modifies h
    ensures h[..] == Zeros(512)
  {
    var i := 0;
    while i < 512
      invariant 0 <= i <= 512 && forall j | 0 <= j < i :: h[j] == 0
    {
      h[i] := 0;
      i := i + 1;
    }
  }

  lemma Halves(head: seq<byte>, mid: seq<byte>, tail: seq<byte>)
    requires |head| == 148 && |mid| == 8 && |tail| == 356
    ensures (head + mid + tail)[..148] == head && (head + mid + tail)[148..156] == mid
            && (head + mid + tail)[156..] == tail
  {
  }

  // ---------------------------------------------------------------
  // Parsing
  // ---------------------------------------------------------------

  datatype Parsed =
    | EndOfArchive
    | Bad(message: string)
    | Member(name: seq<byte>, kind: byte, size: nat)

  ghost predicate AllZeros(h: seq<byte>) {
    forall i | 0 <= i < |h| :: h[i] == 0
  }

  /** ustar_parse_header. */
  ghost function Parse(h: seq<byte>): Parsed
    requires |h| == 512
  {
    if AllZeros(h) then EndOfArchive
    else if h[257..263] != MAGIC + [0] then Bad("not a ustar archive")
    else if h[263] != 48 || h[264] != 48 then Bad("invalid ustar version")
    else if ParseOctal(h[148..156], 0, 0).None? then Bad("corrupt chksum field")
    else if ParseOctal(h[148..156], 0, 0).value != Checksum(h) then Bad("checksum mismatch")
    else if h[99] != 0 || h[345] != 0 then Bad("file name too long")
    else if h[156] != REGULAR && h[156] != DIRECTORY then Bad("unimplemented file type")
    else if h[156] == DIRECTORY then Member(Strip(CStr(h, 0)), DIRECTORY, 0)
    else
      match ParseOctal(h[124..136], 0, 0)
      case None => Bad("corrupt file size field")
      case Some(size) => if size > 0x7FFF_FFFF then Bad("file too large") else Member(Strip(CStr(h, 0)), REGULAR, size)
  }

  /** The string at the start of m. */
  method ReadString(m: seq<byte>) returns (w: seq<byte>)
    ensures w == CStr(m, 0)
  {
    var n := 0;
    while n < |m| && m[n] != 0
      invariant 0 <= n <= |m| && forall i | 0 <= i < n :: m[i] != 0
    {
      n := n + 1;
    }
    CStrSplit(m, 0, n);
    assert m[0..n] == m[..n];
    w := m[..n];
  }

  method IsAllZeros(h: seq<byte>) returns (r: bool)
    ensures r <==> AllZeros(h)
  {
    var i := 0;
    while i < |h|
      invariant 0 <= i <= |h| && forall j | 0 <= j < i :: h[j] == 0
    {
      if h[i] != 0 {
        return false;
      }
      i := i + 1;
    }
    return true;
  }

  method ParseHeader(h: seq<byte>) returns (r: Parsed)
    requires |h| == 512
    ensures r == Parse(h)
  {
    hide CStr, Strip, Checksum, ParseOctal, AllZeros;
    var zeros := IsAllZeros(h);
    if zeros {
      return EndOfArchive;
    }
    if h[257..263] != MAGIC + [0] {
      return Bad("not a ustar archive");
    } else if h[263] != 48 || h[264] != 48 {
      return Bad("invalid ustar version");
    }
    var chksum := ParseOctalField(h[148..156]);
    if chksum.None? {
      return Bad("corrupt chksum field");
    }
    var sum := CalculateChksum(h);
    if chksum.value != sum {
      return Bad("checksum mismatch");
    } else if h[99] != 0 || h[345] != 0 {
      return Bad("file name too long");
    } else if h[156] != REGULAR && h[156] != DIRECTORY {
      return Bad("unimplemented file type");
    }
    var size: nat := 0;
    if h[156] == REGULAR {
      var field := ParseOctalField(h[124..136]);
      if field.None? {
        return Bad("corrupt file size field");
      } else if field.value > 0x7FFF_FFFF {
        return Bad("file too large");
      }
      size := field.value;
    }
    var name := ReadString(h);
    r := Member(Strip(name), h[156], size);
  }

  /** A header for a member of that type and size, as the format has it: the magic and the version, the
      checksum of the rest, a name that ends inside its field and has no prefix, and for a regular
      file a size below 2^31. */
  ghost predicate WellFormed(h: seq<byte>, kind: byte, size: nat)
    requires |h| == 512
  {
    && h[257..265] == [117, 115, 116, 97, 114, 0, 48, 48]
    && (exists n: nat :: OctalFieldOf(h[148..156], n, Checksum(h)))
    && h[99] == 0 && h[345] == 0
    && h[156] == kind
    && ((kind == 48 && size < 0x8000_0000 && exists n: nat :: OctalFieldOf(h[124..136], n, size))
       || (kind == 53 && size == 0))
  }

  /** The parser takes exactly the well-formed headers, at their type, size and stripped name, and exactly
      a block of zeros for the end of the archive. */
  lemma ParseAccepts(h: seq<byte>, name: seq<byte>, kind: byte, size: nat)
    requires |h| == 512
    ensures Parse(h) == Member(name, kind, size) <==>
              WellFormed(h, kind, size) && name == Strip(CStr(h, 0))
    ensures Parse(h) == EndOfArchive <==> forall i | 0 <= i < 512 :: h[i] == 0
  {
    hide CStr, Strip, Checksum, ParseOctal, OctalFieldOf;
    ParseOctalIs(h[148..156], Checksum(h));
    ParseOctalIs(h[124..136], size);
    MagicParts(h);
    if WellFormed(h, kind, size) { assert h[257..265][0] == h[257]; }
  }

  lemma MagicParts(h: seq<byte>)
    requires |h| == 512
    ensures h[257..265] == [117, 115, 116, 97, 114, 0, 48, 48]
      <==> h[257..263] == MAGIC + [0] && h[263] == 48 && h[264] == 48
  {
    var w := h[257..265];
    assert w == h[257..263] + [h[263], h[264]] && w[..6] == h[257..263] && w[6] == h[263] && w[7] == h[264];
    assert MAGIC + [0] == [117, 115, 116, 97, 114, 0];
    assert [117, 115, 116, 97, 114, 0] + [48, 48] == [117, 115, 116, 97, 114, 0, 48, 48];
  }

  // ---------------------------------------------------------------
  // Parsing undoes composing
  // ---------------------------------------------------------------

  lemma MiddleOf(x: seq<byte>, w: seq<byte>, y: seq<byte>)
    ensures (x + w + y)[|x|..|x| + |w|] == w
  {
  }

  /** The fields of a complete header that parsing looks at. */
  lemma WholeFields(name: seq<byte>, kind: byte, size: nat)
    requires |name| <= 99
    ensures var h := Whole(name, kind, size);
            && h[..100] == Pad(name, 100) && h[124..136] == FieldOf(size, 11)
            && h[148..156] == FieldOf(Checksum(h), 7) && h[156] == kind && h[257..263] == Pad(MAGIC, 6)
            && h[263..265] == [48, 48] && h[345] == 0
  {
    hide FieldOf, Pad, Sum;
    var h := Whole(name, kind, size);
    var head, tail := Head(name, kind, size), Tail(kind);
    Halves(head, FieldOf(Sum(head) + 256 + Sum(tail), 7), tail);
    HeadFields(name, kind, size);
    TailFields(kind);
    assert h[..100] == h[..148][..100] && h[124..136] == h[..148][124..136];
    SliceOfSlice(h, 156, 512, 101, 107);
    SliceOfSlice(h, 156, 512, 107, 109);
    assert h[156..512] == h[156..];
    assert h[156] == h[156..][0] && h[345] == h[156..][189];
  }

  lemma HeadFields(name: seq<byte>, kind: byte, size: nat)
    requires |name| <= 99
    ensures Head(name, kind, size)[..100] == Pad(name, 100) && Head(name, kind, size)[124..136] == FieldOf(size, 11)
  {
    hide FieldOf, Pad;
    var x := Pad(name, 100) + FieldOf(Mode(kind), 7) + Pad(ZERO_ID, 8) + Pad(ZERO_ID, 8);
    MiddleOf(x, FieldOf(size, 11), FieldOf(1136102400, 11));
    assert Head(name, kind, size) == x + FieldOf(size, 11) + FieldOf(1136102400, 11);
  }

  lemma TailFields(kind: byte)
    ensures Tail(kind)[0] == kind && Tail(kind)[101..107] == Pad(MAGIC, 6) && Tail(kind)[107..109] == [48, 48]
            && Tail(kind)[189] == 0
  {
    hide Pad;
    var x := [kind] + Zeros(100);
    var y := [48, 48] + Pad(ROOT, 32) + Pad(ROOT, 32) + Zeros(183);
    assert Tail(kind) == x + Pad(MAGIC, 6) + y;
    MiddleOf(x, Pad(MAGIC, 6), y);
    assert Tail(kind) == (x + Pad(MAGIC, 6)) + [48, 48] + (Pad(ROOT, 32) + Pad(ROOT, 32) + Zeros(183));
    MiddleOf(x + Pad(MAGIC, 6), [48, 48], Pad(ROOT, 32) + Pad(ROOT, 32) + Zeros(183));
    assert Tail(kind)[189] == Zeros(183)[189 - 173];
  }

  /** A field of octal digits reads back. */
  lemma FieldReadsBack(v: nat, width: nat)
    requires 0 < width <= 22 && v < EightTo(width) && v < 0x1_0000_0000
    ensures ParseOctal(FieldOf(v, width), 0, 0) == Some(v)
  {
    hide OctalText, EightTo, FieldOf, ParseOctal;
    FieldOfIs(v, width);
    OctalTextIs(v, width);
    var digits := OctalText(v, width);
    var field := digits + [0];
    assert field[..width] == digits;
    ParseOctalIs(field, v);
    assert OctalFieldOf(field, width, v);
  }

  lemma NoNumber(s: seq<byte>)
    requires |s| == 0
    ensures OctalNum(s) == 0
  {
  }

  lemma NameBack(h: seq<byte>, name: seq<byte>)
    requires |h| == 512 && |name| <= 99 && 0 !in name && h[..100] == Pad(name, 100)
    ensures CStr(h, 0) == name && h[99] == 0
  {
    assert forall i | 0 <= i < 100 :: h[i] == h[..100][i];
    CStrSplit(h, 0, |name|);
    assert h[0..|name|] == name;
  }

  /** A composed header parses back to its name and type; a regular file's size comes back exactly if
      it was not negative (a word above 2^31 - 1), and a directory's is read as 0. */
  lemma HeaderRoundTrip(fileName: seq<byte>, kind: byte, size: nat)
    requires 0 !in fileName && |Strip(fileName)| <= 99 && (kind == REGULAR || kind == DIRECTORY) && size < 0x1_0000_0000
    ensures var name := Strip(fileName);
            Parse(Whole(name, kind, size))
            == if kind == DIRECTORY then Member(name, DIRECTORY, 0)
               else if size <= 0x7FFF_FFFF then Member(name, REGULAR, size)
               else Bad("file too large")
  {
    hide Whole, Checksum, ParseOctal, FieldOf, Pad, EightTo, CStr, Strip;
    var name := Strip(fileName);
    var h := Whole(name, kind, size);
    WholeFields(name, kind, size);
    NameBack(h, name);
    EightToBounds();
    ChecksumFits(name, kind, size);
    FieldReadsBack(Checksum(h), 7);
    FieldReadsBack(size, 11);
    StripIdempotent(fileName);
    MagicIs();
    assert h[263..265][0] == h[263] && h[263..265][1] == h[264];
  }

  lemma MagicIs()
    ensures Pad(MAGIC, 6) == MAGIC + [0]
  {
  }

  lemma ChecksumFits(name: seq<byte>, kind: byte, size: nat)
    requires |name| <= 99
    ensures Checksum(Whole(name, kind, size)) < EightTo(7)
  {
    hide FieldOf, Sum, EightTo, Head, Tail;
    var head, tail := Head(name, kind, size), Tail(kind);
    Halves(head, FieldOf(Sum(head) + 256 + Sum(tail), 7), tail);
    ChksumFits(head, tail);
  }
}
