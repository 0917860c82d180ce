/** Integer formatting and its bounded output (lib/stdio.c), for 64-bit values. */
module Printf {
  import opened Options

  /** base_d, base_o, base_x and base_X. */
  datatype Base = Dec | Oct | HexLower | HexUpper

  /** The flags, the field width, and the precision with -1 for none. */
  datatype Conversion = Conversion(minus: bool, plus: bool, space: bool, pound: bool, zero: bool, group: bool,
      width: int, precision: int)

  // ---------------------------------------------------------------
  // Digits
  // ---------------------------------------------------------------

  function Quotient(v: nat, b: Base): nat {
    match b
    case Dec => v / 10
    case Oct => v / 8
    case _ => v / 16
  }

  function Remainder(v: nat, b: Base): (r: nat)
    ensures r < Radix(b)
  {
    match b
    case Dec => v % 10
    case Oct => v % 8
    case _ => v % 16
  }

  function Radix(b: Base): nat {
    match b
    case Dec => 10
    case Oct => 8
    case _ => 16
  }

  /** Radix times v plus d. */
  function Shift(v: nat, d: nat, b: Base): nat {
    match b
    case Dec => 10 * v + d
    case Oct => 8 * v + d
    case _ => 16 * v + d
  }

  lemma QuotientRemainder(v: nat, b: Base)
    ensures Shift(Quotient(v, b), Remainder(v, b), b) == v
    ensures v > 0 ==> Quotient(v, b) < v
    ensures Quotient(v, b) <= v / 8
  {
  }

  /** A comma goes before the digit that follows cnt others. */
  function CommaBefore(cnt: nat, b: Base): bool {
    cnt > 0 && match b
               case Dec => cnt % 3 == 0
               case Oct => cnt % 3 == 0
               case _ => cnt % 4 == 0
  }

  function DigitChar(d: nat, b: Base): (c: char)
    requires d < Radix(b)
  {
    if b == HexUpper then "0123456789ABCDEF"[d] else "0123456789abcdef"[d]
  }

  /** What a digit character stands for. */
  function DigitValue(c: char): nat {
    if '0' <= c <= '9' then (c - '0') as nat
    else if 'a' <= c <= 'f' then (c - 'a') as nat + 10
    else if 'A' <= c <= 'F' then (c - 'A') as nat + 10
    else 0
  }

  lemma DigitRoundTrip(d: nat, b: Base)
    requires d < Radix(b)
    ensures DigitValue(DigitChar(d, b)) == d && DigitChar(d, b) != ','
  {
  }

  /** The digit loop: least significant digit first, cnt digits being out already. */
  ghost function Raw(v: nat, b: Base, group: bool, cnt: nat): (r: seq<char>)
    decreases v
  {
    if v == 0 then []
    else
      QuotientRemainder(v, b);
      (if group && CommaBefore(cnt, b) then [','] else []) + [DigitChar(Remainder(v, b), b)]
          + Raw(Quotient(v, b), b, group, cnt + 1)
  }

  ghost function Repeat(c: char, n: int): (r: seq<char>)
    ensures |r| == if n > 0 then n else 0
    ensures forall i | 0 <= i < |r| :: r[i] == c
  {
    if n <= 0 then [] else seq(n, _ => c)
  }

  /** How many zeros the precision calls for; no more than the buffer takes but one. */
  ghost function PrecisionZeros(len: nat, precision: int): (n: int) {
    (if precision < 0 then 1 else if precision > 63 then 63 else precision) - len
  }

  /** The buffer when it is complete. */
  ghost function Buffer(v: nat, b: Base, c: Conversion): seq<char> {
    var raw := Raw(v, b, c.group, 0);
    var padded := raw + Repeat('0', PrecisionZeros(|raw|, c.precision));
    if c.pound && b == Oct && (padded == [] || padded[|padded| - 1] != '0') then padded + ['0'] else padded
  }

  ghost function Reverse(s: seq<char>): (r: seq<char>)
    ensures |r| == |s|
  {
    if s == [] then [] else Reverse(s[1..]) + [s[0]]
  }

  /** The number that a numeral stands for in base b, commas aside. */
  ghost function ValueOf(s: seq<char>, b: Base): nat {
    if s == [] then 0
    else
      var c, v := s[|s| - 1], ValueOf(s[..|s| - 1], b);
      if c == ',' then v else Shift(v, DigitValue(c), b)
  }

  // ---------------------------------------------------------------
  // The digits read back
  // ---------------------------------------------------------------

  lemma ReverseCons(c: char, s: seq<char>)
    ensures Reverse([c] + s) == Reverse(s) + [c]
  {
    assert ([c] + s)[1..] == s;
  }

  lemma ValueLast(s: seq<char>, c: char, b: Base)
    ensures ValueOf(s + [c], b) == if c == ',' then ValueOf(s, b) else Shift(ValueOf(s, b), DigitValue(c), b)
  {
    assert (s + [c])[..|s|] == s;
  }

  lemma {:induction false} ZerosAreNothing(s: seq<char>, b: Base)
    requires forall i | 0 <= i < |s| :: s[i] == '0'
    ensures ValueOf(Reverse(s), b) == 0
  {
    if s != [] {
      ZerosAreNothing(s[1..], b);
      ValueLast(Reverse(s[1..]), '0', b);
    }
  }

  /** One more digit at the low end. */
  lemma DigitAdded(v: nat, b: Base, rest: seq<char>)
    requires ValueOf(Reverse(rest), b) == Quotient(v, b)
    ensures ValueOf(Reverse([DigitChar(Remainder(v, b), b)] + rest), b) == v
  {
    hide ValueOf, Reverse, DigitChar, DigitValue, Shift, Quotient, Remainder;
    var d := DigitChar(Remainder(v, b), b);
    QuotientRemainder(v, b);
    DigitRoundTrip(Remainder(v, b), b);
    ReverseCons(d, rest);
    ValueLast(Reverse(rest), d, b);
  }

  lemma CommaAdded(b: Base, rest: seq<char>)
    ensures ValueOf(Reverse([','] + rest), b) == ValueOf(Reverse(rest), b)
  {
    ReverseCons(',', rest);
    ValueLast(Reverse(rest), ',', b);
  }

  /** Digits most significant first, zeros before them, are the value. */
  lemma {:induction false} RawReadsBack(v: nat, b: Base, group: bool, cnt: nat, zeros: seq<char>)
    requires forall i | 0 <= i < |zeros| :: zeros[i] == '0'
    ensures ValueOf(Reverse(Raw(v, b, group, cnt) + zeros), b) == v
    decreases v
  {
    hide ValueOf, Reverse, DigitChar, Quotient, Remainder, CommaBefore;
    if v == 0 {
      assert Raw(v, b, group, cnt) + zeros == zeros;
      ZerosAreNothing(zeros, b);
    } else {
      RawStep(v, b, group, cnt);
      hide Raw;
      var d := DigitChar(Remainder(v, b), b);
      var rest := Raw(Quotient(v, b), b, group, cnt + 1) + zeros;
      RawReadsBack(Quotient(v, b), b, group, cnt + 1, zeros);
      DigitAdded(v, b, rest);
      if group && CommaBefore(cnt, b) {
        CommaAdded(b, [d] + rest);
        assert Raw(v, b, group, cnt) + zeros == [','] + ([d] + rest);
      } else {
        assert Raw(v, b, group, cnt) + zeros == [d] + rest;
      }
    }
  }

  /** The numeral that is output stands for the value, whatever the flags and the precision. */
  lemma DigitsReadBack(v: nat, b: Base, c: Conversion)
    ensures ValueOf(Reverse(Buffer(v, b, c)), b) == v
  {
    var raw := Raw(v, b, c.group, 0);
    var zeros := Repeat('0', PrecisionZeros(|raw|, c.precision));
    RawReadsBack(v, b, c.group, 0, zeros);
    RawReadsBack(v, b, c.group, 0, zeros + ['0']);
    assert raw + (zeros + ['0']) == raw + zeros + ['0'];
  }

  // ---------------------------------------------------------------
  // It fits the 64-byte buffer
  // ---------------------------------------------------------------

  ghost function EightTo(k: nat): nat {
    if k == 0 then 1 else 8 * EightTo(k - 1)
  }

  /** k digits at most below 8^k, and a comma at most with each. */
  lemma {:induction false} RawIsShort(v: nat, b: Base, group: bool, cnt: nat, k: nat)
    requires v < EightTo(k)
    ensures |Raw(v, b, group, cnt)| <= if group then 2 * k else k
    decreases k
  {
    if v > 0 {
      QuotientRemainder(v, b);
      RawIsShort(Quotient(v, b), b, group, cnt + 1, k - 1);
    }
  }

  lemma Word64Bound()
    ensures 0x1_0000_0000_0000_0000 <= EightTo(22)
  {
    assert EightTo(6) == 0x4_0000;
    assert EightTo(11) == 0x2_0000_0000;
    assert EightTo(16) == 0x1_0000_0000_0000;
  }

  lemma RawFits(v: nat, b: Base, group: bool)
    requires v < 0x1_0000_0000_0000_0000
    ensures |Raw(v, b, group, 0)| <= 44
  {
    hide EightTo;
    Word64Bound();
    RawIsShort(v, b, group, 0, 22);
  }

  /** Even with the octal zero after a full precision the buffer is not overrun. */
  lemma BufferFits(v: nat, b: Base, c: Conversion)
    requires v < 0x1_0000_0000_0000_0000
    ensures |Buffer(v, b, c)| <= 64
  {
    RawFits(v, b, c.group);
  }

  // ---------------------------------------------------------------
  // The whole conversion
  // ---------------------------------------------------------------

  ghost function Sign(isSigned: bool, negative: bool, c: Conversion): seq<char> {
    if !isSigned then []
    else if c.plus then (if negative then ['-'] else ['+'])
    else if c.space then (if negative then ['-'] else [' '])
    else if negative then ['-'] else []
  }

  ghost function Prefix(v: nat, b: Base, c: Conversion): seq<char> {
    if c.pound && v != 0 then (match b case HexLower => ['0', 'x'] case HexUpper => ['0', 'X'] case _ => []) else []
  }

  /** Length without field padding. */
  ghost function NaturalLength(v: nat, isSigned: bool, negative: bool, b: Base, c: Conversion): nat {
    |Sign(isSigned, negative, c)| + |Prefix(v, b, c)| + |Buffer(v, b, c)|
  }

  ghost function Pad(v: nat, isSigned: bool, negative: bool, b: Base, c: Conversion): int {
    c.width - NaturalLength(v, isSigned, negative, b, c)
  }

  /** What format_integer outputs. */
  ghost function Text(v: nat, isSigned: bool, negative: bool, b: Base, c: Conversion): seq<char> {
    var pad := Pad(v, isSigned, negative, b, c);
    (if !c.minus && !c.zero then Repeat(' ', pad) else []) + Sign(isSigned, negative, c) + Prefix(v, b, c)
    + (if c.zero then Repeat('0', pad) else []) + Reverse(Buffer(v, b, c)) + (if c.minus then Repeat(' ', pad) else [])
  }

  /** The field is as wide as asked, or as long as the number, exactly unless both '-' and '0' are in
      force and there is padding to do: then it is padded twice. */
  lemma FieldWidth(v: nat, isSigned: bool, negative: bool, b: Base, c: Conversion)
    ensures var n, natural := |Text(v, isSigned, negative, b, c)|, NaturalLength(v, isSigned, negative, b, c);
            && (n == (if c.width > natural then c.width else natural) <==> !(c.minus && c.zero && c.width > natural))
            && (c.minus && c.zero && c.width > natural ==> n == 2 * c.width - natural)
  {
    hide Buffer, Sign, Prefix, Reverse;
  }

  /** A numeral has as many characters as its digits and commas need or as the precision asks, the
      latter only up to 63. */
  lemma NumeralLength(v: nat, b: Base, c: Conversion)
    requires v < 0x1_0000_0000_0000_0000 && !(c.pound && b == Oct)
    ensures var need, asked := |Raw(v, b, c.group, 0)|, if c.precision < 0 then 1 else c.precision;
            && |Buffer(v, b, c)| == (if need >= asked then need else if asked <= 63 then asked else 63)
            && (|Buffer(v, b, c)| == (if need >= asked then need else asked) <==> asked <= 63)
  {
    hide Raw;
    RawFits(v, b, c.group);
  }

  // ---------------------------------------------------------------
  // The output read back
  // ---------------------------------------------------------------

  /** A number as a reader of the output finds it: spaces, a sign, 0x or 0X, digits and commas, and
      what follows. */
  datatype Reading = Reading(spaces: nat, sign: Option<char>, prefix: Option<char>, digits: seq<char>, rest: seq<char>)

  ghost function LeadingSpaces(s: seq<char>): (n: nat)
    ensures n <= |s|
  {
    if s != [] && s[0] == ' ' then 1 + LeadingSpaces(s[1..]) else 0
  }

  /** The digits of a base, of one case, and the comma. */
  ghost predicate InNumeral(ch: char, b: Base) {
    ch == ',' || match b
                 case Dec => '0' <= ch <= '9'
                 case Oct => '0' <= ch <= '7'
                 case HexLower => '0' <= ch <= '9' || 'a' <= ch <= 'f'
                 case HexUpper => '0' <= ch <= '9' || 'A' <= ch <= 'F'
  }

  ghost function NumeralRun(s: seq<char>, b: Base): (n: nat)
    ensures n <= |s|
  {
    if s != [] && InNumeral(s[0], b) then 1 + NumeralRun(s[1..], b) else 0
  }

  /** A sign, if there is one, and what follows. */
  ghost function ReadSign(s: seq<char>): (Option<char>, seq<char>) {
    if s != [] && s[0] in "+-" then (Some(s[0]), s[1..]) else (None, s)
  }

  /** In hexadecimal 0x or 0X, if it is there, and what follows. */
  ghost function ReadPrefix(s: seq<char>, b: Base): (Option<char>, seq<char>) {
    if (b == HexLower || b == HexUpper) && |s| >= 2 && s[0] == '0' && s[1] in "xX" then (Some(s[1]), s[2..])
    else (None, s)
  }

  ghost function Read(s: seq<char>, b: Base): Reading {
    var spaces := LeadingSpaces(s);
    var (sign, s1) := ReadSign(s[spaces..]);
    var (prefix, s2) := ReadPrefix(s1, b);
    var n := NumeralRun(s2, b);
    Reading(spaces, sign, prefix, s2[..n], s2[n..])
  }

  ghost function NumberRead(r: Reading, b: Base): int {
    var v: int := ValueOf(r.digits, b);
    if r.sign == Some('-') then -v else v
  }

  /** The text s shows the number, with the sign, the prefix and the alignment that the conversion asks for,
      and with leading zeros only where it asks for them. */
  ghost predicate Shows(s: seq<char>, v: nat, isSigned: bool, negative: bool, b: Base, c: Conversion) {
    var r := Read(s, b);
    var spaceForPlus := isSigned && !negative && c.space && !c.plus;
    && NumberRead(r, b) == (if isSigned && negative then 0 - v else v)
    && (r.sign == Some('-') <==> isSigned && negative)
    && (r.sign == Some('+') <==> isSigned && !negative && c.plus)
    && (r.prefix == Some('x') <==> c.pound && v != 0 && b == HexLower)
    && (r.prefix == Some('X') <==> c.pound && v != 0 && b == HexUpper)
    && (forall ch | ch in r.rest :: ch == ' ')
    && (!c.minus ==> r.rest == [])
    && (spaceForPlus ==> r.spaces > 0)
    && (r.digits != [] && (c.minus || c.zero) ==> r.spaces == if spaceForPlus then 1 else 0)
    && (!c.zero && r.digits != [] && r.digits[0] == '0' ==>
          (c.pound && b == Oct) || |r.digits| <= if c.precision < 0 then 1 else c.precision)
  }

  ghost predicate AllInNumeral(s: seq<char>, b: Base) { forall ch | ch in s :: InNumeral(ch, b) }

  lemma {:induction false} SpacesSkipped(n: nat, s: seq<char>)
    requires s != [] ==> s[0] != ' '
    ensures LeadingSpaces(Repeat(' ', n) + s) == n
  {
    if n == 0 {
      assert Repeat(' ', 0) + s == s;
    } else {
      SpacesSkipped(n - 1, s);
      assert (Repeat(' ', n) + s)[1..] == Repeat(' ', n - 1) + s;
    }
  }

  lemma {:induction false} NumeralTaken(d: seq<char>, rest: seq<char>, b: Base)
    requires AllInNumeral(d, b) && (rest != [] ==> !InNumeral(rest[0], b))
    ensures NumeralRun(d + rest, b) == |d|
  {
    if d == [] {
      assert d + rest == rest;
    } else {
      NumeralTaken(d[1..], rest, b);
      assert (d + rest)[1..] == d[1..] + rest;
    }
  }

  lemma SignTaken(sign: Option<char>, s: seq<char>)
    requires sign.Some? ==> sign.value in "+-"
    requires sign.None? && s != [] ==> s[0] !in "+-"
    ensures ReadSign((if sign.Some? then [sign.value] else []) + s) == (sign, s)
  {
    if sign.Some? { assert ([sign.value] + s)[1..] == s; } else { assert [] + s == s; }
  }

  lemma PrefixTaken(prefix: Option<char>, s: seq<char>, b: Base)
    requires prefix.Some? ==> (b == HexLower || b == HexUpper) && prefix.value in "xX"
    requires prefix.None? && |s| >= 2 ==> s[1] !in "xX"
    ensures ReadPrefix((if prefix.Some? then ['0', prefix.value] else []) + s, b) == (prefix, s)
  {
    if prefix.Some? { assert (['0', prefix.value] + s)[2..] == s; } else { assert [] + s == s; }
  }

  /** What the reader finds in a text made of such pieces, unless it is all spaces. */
  lemma ReadPieces(a: nat, sign: Option<char>, prefix: Option<char>, d: seq<char>, t: nat, b: Base)
    requires sign.Some? ==> sign.value in "+-"
    requires prefix.Some? ==> (b == HexLower || b == HexUpper) && prefix.value in "xX"
    requires AllInNumeral(d, b) && !(sign.None? && prefix.None? && d == [])
    ensures Read(Repeat(' ', a) + ((if sign.Some? then [sign.value] else [])
                                   + ((if prefix.Some? then ['0', prefix.value] else []) + (d + Repeat(' ', t)))), b)
         == Reading(a, sign, prefix, d, Repeat(' ', t))
  {
    hide LeadingSpaces, NumeralRun, InNumeral, ReadSign, ReadPrefix;
    NotInNumeral(b);
    var s2 := d + Repeat(' ', t);
    NumeralTaken(d, Repeat(' ', t), b);
    assert s2[..|d|] == d && s2[|d|..] == Repeat(' ', t);
    assert forall i | 0 <= i < |s2| :: s2[i] in d || s2[i] == ' ';
    PrefixTaken(prefix, s2, b);
    var s1 := (if prefix.Some? then ['0', prefix.value] else []) + s2;
    SignTaken(sign, s1);
    var s := (if sign.Some? then [sign.value] else []) + s1;
    FirstIsNoSpace(sign, prefix, d, t, b);
    SpacesSkipped(a, s);
    assert (Repeat(' ', a) + s)[a..] == s;
  }

  lemma FirstIsNoSpace(sign: Option<char>, prefix: Option<char>, d: seq<char>, t: nat, b: Base)
    requires sign.Some? ==> sign.value in "+-"
    requires AllInNumeral(d, b) && !(sign.None? && prefix.None? && d == [])
    ensures var s := (if sign.Some? then [sign.value] else [])
                     + ((if prefix.Some? then ['0', prefix.value] else []) + (d + Repeat(' ', t)));
            s != [] && s[0] != ' '
  {
    hide InNumeral;
    NotInNumeral(b);
    if d != [] { assert d[0] in d; }
  }

  lemma NotInNumeral(b: Base)
    ensures !InNumeral(' ', b) && !InNumeral('+', b) && !InNumeral('-', b) && !InNumeral('x', b) && !InNumeral('X', b)
    ensures InNumeral('0', b) && InNumeral(',', b)
  {
  }

  /** A text of spaces. */
  lemma ReadSpaces(n: nat, b: Base)
    ensures Read(Repeat(' ', n), b) == Reading(n, None, None, [], [])
  {
    SpacesSkipped(n, []);
    assert Repeat(' ', n) + [] == Repeat(' ', n);
  }

  lemma DigitInNumeral(d: nat, b: Base)
    requires d < Radix(b)
    ensures InNumeral(DigitChar(d, b), b)
  {
  }

  lemma {:induction false} RawInNumeral(v: nat, b: Base, group: bool, cnt: nat)
    ensures AllInNumeral(Raw(v, b, group, cnt), b)
    decreases v
  {
    hide DigitChar, Quotient, Remainder, CommaBefore, InNumeral;
    if v > 0 {
      QuotientRemainder(v, b);
      DigitInNumeral(Remainder(v, b), b);
      NotInNumeral(b);
      RawInNumeral(Quotient(v, b), b, group, cnt + 1);
    }
  }

  lemma {:induction false} ReverseMembers(s: seq<char>, ch: char)
    ensures ch in Reverse(s) <==> ch in s
  {
    if s != [] {
      ReverseMembers(s[1..], ch);
      assert s == [s[0]] + s[1..];
    }
  }

  lemma BufferInNumeral(v: nat, b: Base, c: Conversion)
    ensures AllInNumeral(Reverse(Buffer(v, b, c)), b)
  {
    hide Raw, InNumeral, Reverse;
    RawInNumeral(v, b, c.group, 0);
    NotInNumeral(b);
    forall ch | ch in Reverse(Buffer(v, b, c))
      ensures InNumeral(ch, b)
    {
      ReverseMembers(Buffer(v, b, c), ch);
    }
  }

  lemma {:induction false} ZerosBefore(z: seq<char>, s: seq<char>, b: Base)
    requires forall i | 0 <= i < |z| :: z[i] == '0'
    ensures ValueOf(z + s, b) == ValueOf(s, b)
    decreases |z| + |s|
  {
    if s != [] {
      ZerosBefore(z, s[..|s| - 1], b);
      assert (z + s)[..|z + s| - 1] == z + s[..|s| - 1];
    } else if z != [] {
      ZerosBefore(z[..|z| - 1], [], b);
      assert (z + s)[..|z + s| - 1] == z[..|z| - 1] + [];
    }
  }

  /** The spaces before the number, the sign, and the prefix. */
  ghost function SignRead(isSigned: bool, negative: bool, c: Conversion): Option<char> {
    var s := Sign(isSigned, negative, c);
    if s == [] || s == [' '] then None else Some(s[0])
  }

  ghost function PrefixRead(v: nat, b: Base, c: Conversion): Option<char> {
    var s := Prefix(v, b, c);
    if s == [] then None else Some(s[1])
  }

  lemma PiecesFromTheRight(a: seq<char>, s: seq<char>, p: seq<char>, z: seq<char>, n: seq<char>, t: seq<char>)
    ensures a + s + p + z + n + t == a + (s + (p + ((z + n) + t)))
  {
    assert z + n + t == z + (n + t);
    assert a + s + p + z + n + t == (a + s + p) + (z + n + t);
    assert (a + s + p) + (z + n + t) == a + (s + (p + (z + n + t)));
  }

  lemma SpaceSign(n: nat, rest: seq<char>)
    ensures Repeat(' ', n) + ([' '] + rest) == Repeat(' ', n + 1) + ([] + rest)
  {
    assert Repeat(' ', n) + [' '] == Repeat(' ', n + 1);
    assert Repeat(' ', n) + ([' '] + rest) == (Repeat(' ', n) + [' ']) + rest;
  }

  lemma TextPieces(v: nat, isSigned: bool, negative: bool, b: Base, c: Conversion)
    ensures var pad := if Pad(v, isSigned, negative, b, c) > 0 then Pad(v, isSigned, negative, b, c) else 0;
            var a := (if !c.minus && !c.zero then pad else 0) + if Sign(isSigned, negative, c) == [' '] then 1 else 0;
            var sign, prefix := SignRead(isSigned, negative, c), PrefixRead(v, b, c);
            var d := Repeat('0', if c.zero then pad else 0) + Reverse(Buffer(v, b, c));
            Text(v, isSigned, negative, b, c)
            == Repeat(' ', a) + ((if sign.Some? then [sign.value] else [])
                                 + ((if prefix.Some? then ['0', prefix.value] else [])
                                    + (d + Repeat(' ', if c.minus then pad else 0))))
  {
    hide Buffer, Reverse, Text, Pad;
    var pad := if Pad(v, isSigned, negative, b, c) > 0 then Pad(v, isSigned, negative, b, c) else 0;
    TextIs(v, isSigned, negative, b, c, pad);
    var n, z, t := if !c.minus && !c.zero then pad else 0, if c.zero then pad else 0, if c.minus then pad else 0;
    hide Repeat;
    NoneRepeated(' ');
    NoneRepeated('0');
    PiecesFromTheRight(Repeat(' ', n), Sign(isSigned, negative, c), Prefix(v, b, c), Repeat('0', z),
                       Reverse(Buffer(v, b, c)), Repeat(' ', t));
    SpaceSign(n, Prefix(v, b, c) + ((Repeat('0', z) + Reverse(Buffer(v, b, c))) + Repeat(' ', t)));
  }

  lemma NoneRepeated(ch: char)
    ensures Repeat(ch, 0) == []
  {
  }

  /** Where the commas are: from the low end, one after every three digits, four in hexadecimal, as long
      as there are digits of the value to come, and only with the ' flag. A leading zero is there
      only as the precision asks, or for octal with '#', which always has one. */
  lemma NumeralShape(v: nat, b: Base, c: Conversion)
    ensures var s := Buffer(v, b, c);
            && (forall i | 0 <= i < |s| && s[i] == ',' :: c.group && CommaPlace(i, b))
            && (forall i, j | 0 <= i < j < |s| && s[j] != '0' && c.group && CommaPlace(i, b) :: s[i] == ',')
            && (s != [] && s[|s| - 1] == '0' ==>
                  (c.pound && b == Oct) || |s| <= if c.precision < 0 then 1 else c.precision)
            && (c.pound && b == Oct ==> s != [] && s[|s| - 1] == '0')
  {
    hide Raw;
    RawShape(v, b, c.group, 0);
    var raw := Raw(v, b, c.group, 0);
  }

  ghost predicate CommaPlace(i: nat, b: Base) {
    match b
    case Dec => i % 4 == 3
    case Oct => i % 4 == 3
    case _ => i % 5 == 4
  }

  /** How far into a group and its comma the digit loop is after cnt digits. */
  ghost function CommaOffset(cnt: nat, b: Base): nat {
    if cnt == 0 then 0
    else match b
         case Dec => if cnt % 3 == 0 then 3 else cnt % 3
         case Oct => if cnt % 3 == 0 then 3 else cnt % 3
         case _ => if cnt % 4 == 0 then 4 else cnt % 4
  }

  lemma {:induction false} RawShape(v: nat, b: Base, group: bool, cnt: nat)
    ensures var s := Raw(v, b, group, cnt);
            && (forall i | 0 <= i < |s| :: s[i] == ',' <==> group && CommaPlace(i + CommaOffset(cnt, b), b))
            && (v > 0 ==> s != [] && s[|s| - 1] != '0' && s[|s| - 1] != ',') && (v == 0 ==> s == [])
    decreases v
  {
    hide Quotient, Remainder, CommaBefore, CommaPlace, CommaOffset, DigitChar;
    if v > 0 {
      RawStep(v, b, group, cnt);
      var s, rest := Raw(v, b, group, cnt), Raw(Quotient(v, b), b, group, cnt + 1);
      hide Raw;
      RawShape(Quotient(v, b), b, group, cnt + 1);
      TopDigit(v, b);
      var n := if group && CommaBefore(cnt, b) then 2 else 1;
      forall i | 0 <= i < |s|
        ensures s[i] == ',' <==> group && CommaPlace(i + CommaOffset(cnt, b), b)
      {
        CommaStep(cnt, b, if i < n then 0 else i - n);
        if i >= n { assert s[i] == rest[i - n]; }
      }
    }
  }

  lemma CommaStep(cnt: nat, b: Base, i: nat)
    ensures CommaPlace(CommaOffset(cnt, b), b) <==> CommaBefore(cnt, b)
    ensures CommaBefore(cnt, b) ==> !CommaPlace(1 + CommaOffset(cnt, b), b)
    ensures var n := if CommaBefore(cnt, b) then 2 else 1;
            CommaPlace(n + i + CommaOffset(cnt, b), b) == CommaPlace(i + CommaOffset(cnt + 1, b), b)
  {
    match b
    case Dec =>
    case Oct =>
    case _ =>
  }

  lemma TopDigit(v: nat, b: Base)
    requires v > 0
    ensures DigitChar(Remainder(v, b), b) != ','
    ensures Quotient(v, b) == 0 ==> DigitChar(Remainder(v, b), b) != '0'
  {
  }

  /** What the reader finds in the output. */
  lemma TextReads(v: nat, isSigned: bool, negative: bool, b: Base, c: Conversion)
    ensures var pad := if Pad(v, isSigned, negative, b, c) > 0 then Pad(v, isSigned, negative, b, c) else 0;
            var a := (if !c.minus && !c.zero then pad else 0) + if Sign(isSigned, negative, c) == [' '] then 1 else 0;
            var sign, prefix := SignRead(isSigned, negative, c), PrefixRead(v, b, c);
            var d := Repeat('0', if c.zero then pad else 0) + Reverse(Buffer(v, b, c));
            var t := if c.minus then pad else 0;
            && ValueOf(d, b) == v
            && Read(Text(v, isSigned, negative, b, c), b)
               == if sign.None? && prefix.None? && d == [] then Reading(a + t, None, None, [], [])
                  else Reading(a, sign, prefix, d, Repeat(' ', t))
  {
    hide Buffer, Reverse, Text, Read, ValueOf, InNumeral, Pad;
    var pad := if Pad(v, isSigned, negative, b, c) > 0 then Pad(v, isSigned, negative, b, c) else 0;
    var a := (if !c.minus && !c.zero then pad else 0) + if Sign(isSigned, negative, c) == [' '] then 1 else 0;
    var sign, prefix := SignRead(isSigned, negative, c), PrefixRead(v, b, c);
    var zeros, t := Repeat('0', if c.zero then pad else 0), if c.minus then pad else 0;
    var d := zeros + Reverse(Buffer(v, b, c));
    TextPieces(v, isSigned, negative, b, c);
    BufferInNumeral(v, b, c);
    NotInNumeral(b);
    ZerosBefore(zeros, Reverse(Buffer(v, b, c)), b);
    DigitsReadBack(v, b, c);
    hide AllInNumeral;
    ZerosAndDigits(zeros, Reverse(Buffer(v, b, c)), b);
    if sign.None? && prefix.None? && d == [] {
      assert Repeat(' ', a) + ([] + ([] + (d + Repeat(' ', t)))) == Repeat(' ', a + t);
      ReadSpaces(a + t, b);
    } else {
      ReadPieces(a, sign, prefix, d, t, b);
    }
  }

  lemma ReverseFirst(s: seq<char>)
    ensures s != [] ==> Reverse(s)[0] == s[|s| - 1]
  {
    if |s| > 1 { ReverseFirst(s[1..]); }
  }

  lemma ZerosAndDigits(zeros: seq<char>, d: seq<char>, b: Base)
    requires AllInNumeral(d, b) && forall i | 0 <= i < |zeros| :: zeros[i] == '0'
    ensures AllInNumeral(zeros + d, b)
  {
    hide InNumeral;
    NotInNumeral(b);
  }

  /** Whatever the flags, the width and the precision, what format_integer outputs shows the number. */
  lemma TextShows(v: nat, isSigned: bool, negative: bool, b: Base, c: Conversion)
    ensures Shows(Text(v, isSigned, negative, b, c), v, isSigned, negative, b, c)
  {
    hide Buffer, Reverse, Text, Read, ValueOf, Pad;
    TextReads(v, isSigned, negative, b, c);
    NoneRepeated(' ');
    NoneRepeated('0');
    NumeralShape(v, b, c);
    ReverseFirst(Buffer(v, b, c));
    assert [] + Reverse(Buffer(v, b, c)) == Reverse(Buffer(v, b, c));
  }

  // ---------------------------------------------------------------
  // Bounded output
  // ---------------------------------------------------------------

  /** struct vsnprintf_aux over a buffer of bufSize characters. text is history: all that was output. */
  class Aux {
    const buffer: array<char>
    const bufSize: nat
    const maxLength: nat
    var p: nat
    var length: nat
    ghost var text: seq<char>

    ghost predicate Valid()
      reads this, buffer
    {
      && bufSize <= buffer.Length && maxLength == (if bufSize > 0 then bufSize - 1 else 0)
      && length == |text| && p == (if length < maxLength then length else maxLength)
      && buffer[..p] == text[..p]
    }

    constructor (buffer: array<char>, bufSize: nat)
      requires bufSize <= buffer.Length
      ensures Valid() && this.buffer == buffer && this.bufSize == bufSize && text == []
    {
      this.buffer, this.bufSize := buffer, bufSize;
      maxLength := if bufSize > 0 then bufSize - 1 else 0;
      p, length, text := 0, 0, [];
    }

    /** vsnprintf_helper. */
    method Put(ch: char)
      requires Valid()
      modifies this`p, this`length, this`text, buffer
      ensures Valid() && text == old(text) + [ch]
      ensures forall i | bufSize <= i < buffer.Length :: buffer[i] == old(buffer[i])
    {
      if length < maxLength {
        buffer[p] := ch;
        p := p + 1;
      }
      length := length + 1;
      text := text + [ch];
    }

    /** output_dup. */
    method PutDup(ch: char, cnt: nat)
      requires Valid()
      modifies this`p, this`length, this`text, buffer
      ensures Valid() && text == old(text) + Repeat(ch, cnt)
      ensures forall i | bufSize <= i < buffer.Length :: buffer[i] == old(buffer[i])
    {
      var i := 0;
      while i < cnt
        invariant 0 <= i <= cnt && Valid() && text == old(text) + Repeat(ch, i)
        invariant forall j | bufSize <= j < buffer.Length :: buffer[j] == old(buffer[j])
      {
        assert Repeat(ch, i) + [ch] == Repeat(ch, i + 1);
        Put(ch);
        i := i + 1;
      }
    }

    /** The end of vsnprintf: the buffer holds the text cut to bufSize - 1 characters and a null; the
        result counts all of it, and nothing past the buffer's end has been written. */
    method Finish() returns (n: nat)
      requires Valid()
      modifies buffer
      ensures n == |text|
      ensures bufSize > 0 ==>
                var kept := if |text| < bufSize then |text| else bufSize - 1;
                buffer[..kept] == text[..kept] && buffer[kept] == '\0'
      ensures forall i | bufSize <= i < buffer.Length :: buffer[i] == old(buffer[i])
    {
      if bufSize > 0 {
        buffer[p] := '\0';
      }
      n := length;
    }
  }

  /** The digit loop. */
  method PutDigits(buf: array<char>, value: nat, b: Base, group: bool) returns (cp: nat)
    requires buf.Length == 64 && value < 0x1_0000_0000_0000_0000
    modifies buf
    ensures cp <= 44 && buf[..cp] == Raw(value, b, group, 0)
  {
    hide Raw, Quotient, Remainder, DigitChar, CommaBefore;
    RawFits(value, b, group);
    cp := 0;
    var v, digitCnt := value, 0;
    ghost var raw := Raw(value, b, group, 0);
    assert buf[..0] + raw == raw;
    while v > 0
      invariant cp <= |raw| && buf[..cp] + Raw(v, b, group, digitCnt) == raw
      decreases v
    {
      RawStep(v, b, group, digitCnt);
      ghost var rest := Raw(Quotient(v, b), b, group, digitCnt + 1);
      ghost var before := buf[..cp];
      var d := DigitChar(Remainder(v, b), b);
      if group && CommaBefore(digitCnt, b) {
        assert before + ([','] + [d] + rest) == (before + [','] + [d]) + rest;
        buf[cp] := ',';
        cp := cp + 1;
      } else {
        assert before + ([] + [d] + rest) == (before + [d]) + rest;
      }
      buf[cp] := d;
      cp := cp + 1;
      v, digitCnt := Quotient(v, b), digitCnt + 1;
    }
    NoMoreDigits(b, group, digitCnt);
  }

  /** Zeros up to the precision. */
  method PadDigits(buf: array<char>, cp0: nat, precision: int) returns (cp: nat)
    requires buf.Length == 64 && cp0 <= 63
    modifies buf
    ensures cp0 <= cp <= 63 && buf[..cp] == old(buf[..cp0]) + Repeat('0', cp - cp0)
    ensures cp == if precision <= cp0 then cp0 else if precision <= 63 then precision else 63
  {
    cp := cp0;
    while cp < precision && cp < 63
      invariant cp0 <= cp <= 63 && buf[..cp] == old(buf[..cp0]) + Repeat('0', cp - cp0)
      invariant cp > cp0 ==> cp <= precision
    {
      assert Repeat('0', cp - cp0) + ['0'] == Repeat('0', cp + 1 - cp0);
      ghost var before := buf[..cp];
      buf[cp] := '0';
      cp := cp + 1;
      assert buf[..cp] == before + ['0'];
    }
  }

  /** Everything that goes into the 64-byte buffer. */
  method FillBuffer(value: nat, b: Base, c: Conversion) returns (buf: array<char>, cp: nat)
    requires value < 0x1_0000_0000_0000_0000
    ensures fresh(buf) && buf.Length == 64 && cp <= 64 && buf[..cp] == Buffer(value, b, c)
  {
    hide Raw, Buffer;
    buf := new char[64](_ => '0');
    cp := PutDigits(buf, value, b, c.group);
    cp := PadDigits(buf, cp, if c.precision < 0 then 1 else c.precision);
    ghost var padded := buf[..cp];
    if c.pound && b == Oct && (cp == 0 || buf[cp - 1] != '0') {
      buf[cp] := '0';
      cp := cp + 1;
      assert buf[..cp] == padded + ['0'];
    }
    BufferIs(value, b, c, padded, buf[..cp]);
  }

  lemma RawStep(v: nat, b: Base, group: bool, cnt: nat)
    requires v > 0
    ensures Quotient(v, b) < v
    ensures Raw(v, b, group, cnt)
         == (if group && CommaBefore(cnt, b) then [','] else []) + [DigitChar(Remainder(v, b), b)]
             + Raw(Quotient(v, b), b, group, cnt + 1)
  {
    QuotientRemainder(v, b);
  }

  lemma NoMoreDigits(b: Base, group: bool, cnt: nat)
    ensures Raw(0, b, group, cnt) == []
  {
  }

  lemma BufferIs(v: nat, b: Base, c: Conversion, padded: seq<char>, whole: seq<char>)
    requires var raw := Raw(v, b, c.group, 0);
             && |raw| <= |padded| && padded == raw + Repeat('0', |padded| - |raw|)
             && |padded| == |raw| + (if PrecisionZeros(|raw|, c.precision) > 0
                then PrecisionZeros(|raw|, c.precision) else 0)
    requires whole == if c.pound && b == Oct && (padded == [] || padded[|padded| - 1] != '0') then padded + ['0']
             else padded
    ensures whole == Buffer(v, b, c)
  {
    var raw := Raw(v, b, c.group, 0);
    var n := PrecisionZeros(|raw|, c.precision);
    assert Repeat('0', |padded| - |raw|) == Repeat('0', n);
  }

  /** format_integer, into the bounded output: what it puts out shows the number. */
  method FormatInteger(value: nat, isSigned: bool, negative: bool, b: Base, c: Conversion, aux: Aux)
    requires aux.Valid() && value < 0x1_0000_0000_0000_0000
    modifies aux`p, aux`length, aux`text, aux.buffer
    ensures aux.Valid() && aux.text == old(aux.text) + Text(value, isSigned, negative, b, c)
    ensures Shows(aux.text[|old(aux.text)|..], value, isSigned, negative, b, c)
    ensures forall i | aux.bufSize <= i < aux.buffer.Length :: aux.buffer[i] == old(aux.buffer[i])
  {
    hide Buffer, Reverse, Raw, Aux.Valid, Text, Sign, Prefix, Repeat, Shows;
    var sign := SignChar(isSigned, negative, c);
    var x := PrefixChar(value, b, c);
    var buf, cp := FillBuffer(value, b, c);
    var padCnt := c.width - cp - (if x.Some? then 2 else 0) - (if sign.Some? then 1 else 0);
    if padCnt < 0 {
      padCnt := 0;
    }
    OutputField(padCnt, sign, x, buf, cp, c, aux);
    TextIs(value, isSigned, negative, b, c, padCnt);
    TextShows(value, isSigned, negative, b, c);
    assert aux.text[|old(aux.text)|..] == Text(value, isSigned, negative, b, c);
  }

  /** The part of format_integer that outputs. */
  method OutputField(padCnt: nat, sign: Option<char>, x: Option<char>, buf: array<char>, cp: nat, c: Conversion,
                     aux: Aux)
    requires aux.Valid() && cp <= buf.Length && buf != aux.buffer
    modifies aux`p, aux`length, aux`text, aux.buffer
    ensures aux.Valid()
    ensures aux.text == old(aux.text)
              + ((if !c.minus && !c.zero then Repeat(' ', padCnt) else []) + (if sign.Some? then [sign.value] else [])
                 + (if x.Some? then ['0', x.value] else []) + (if c.zero then Repeat('0', padCnt) else [])
                     + Reverse(old(buf[..cp]))
                 + (if c.minus then Repeat(' ', padCnt) else []))
    ensures forall i | aux.bufSize <= i < aux.buffer.Length :: aux.buffer[i] == old(aux.buffer[i])
  {
    hide *;
    ghost var t := aux.text;
    MaybeDup(' ', padCnt, !c.minus && !c.zero, aux);
    PutSign(sign, aux);
    PutPrefix(x, aux);
    MaybeDup('0', padCnt, c.zero, aux);
    PutReversed(buf, cp, aux);
    MaybeDup(' ', padCnt, c.minus, aux);
    SixPieces(t, if !c.minus && !c.zero then Repeat(' ', padCnt) else [], if sign.Some? then [sign.value] else [],
              if x.Some? then ['0', x.value] else [], if c.zero then Repeat('0', padCnt)
                  else [], Reverse(old(buf[..cp])),
              if c.minus then Repeat(' ', padCnt) else []);
  }

  lemma SixPieces(t: seq<char>, a: seq<char>, b: seq<char>, c: seq<char>, d: seq<char>, e: seq<char>, f: seq<char>)
    ensures t + a + b + c + d + e + f == t + (a + b + c + d + e + f)
  {
    assert t + a + b + c == t + (a + b + c);
    assert t + (a + b + c) + d + e + f == t + ((a + b + c) + d + e + f);
  }

  /** output_dup under a flag. */
  method MaybeDup(ch: char, cnt: nat, flag: bool, aux: Aux)
    requires aux.Valid()
    modifies aux`p, aux`length, aux`text, aux.buffer
    ensures aux.Valid() && aux.text == old(aux.text) + if flag then Repeat(ch, cnt) else []
    ensures forall i | aux.bufSize <= i < aux.buffer.Length :: aux.buffer[i] == old(aux.buffer[i])
  {
    if flag {
      aux.PutDup(ch, cnt);
    }
  }

  method SignChar(isSigned: bool, negative: bool, c: Conversion) returns (sign: Option<char>)
    ensures Sign(isSigned, negative, c) == if sign.Some? then [sign.value] else []
  {
    sign := None;
    if isSigned {
      if c.plus {
        sign := Some(if negative then '-' else '+');
      } else if c.space {
        sign := Some(if negative then '-' else ' ');
      } else if negative {
        sign := Some('-');
      }
    }
  }

  method PrefixChar(value: nat, b: Base, c: Conversion) returns (x: Option<char>)
    ensures Prefix(value, b, c) == if x.Some? then ['0', x.value] else []
  {
    x := None;
    if c.pound && value != 0 {
      x := match b case HexLower => Some('x') case HexUpper => Some('X') case _ => None;
    }
  }

  method PutSign(sign: Option<char>, aux: Aux)
    requires aux.Valid()
    modifies aux`p, aux`length, aux`text, aux.buffer
    ensures aux.Valid() && aux.text == old(aux.text) + if sign.Some? then [sign.value] else []
    ensures forall i | aux.bufSize <= i < aux.buffer.Length :: aux.buffer[i] == old(aux.buffer[i])
  {
    if sign.Some? {
      aux.Put(sign.value);
    }
  }

  method PutPrefix(x: Option<char>, aux: Aux)
    requires aux.Valid()
    modifies aux`p, aux`length, aux`text, aux.buffer
    ensures aux.Valid() && aux.text == old(aux.text) + if x.Some? then ['0', x.value] else []
    ensures forall i | aux.bufSize <= i < aux.buffer.Length :: aux.buffer[i] == old(aux.buffer[i])
  {
    if x.Some? {
      aux.Put('0');
      aux.Put(x.value);
    }
  }

  lemma TextIs(v: nat, isSigned: bool, negative: bool, b: Base, c: Conversion, padCnt: nat)
    requires padCnt == if Pad(v, isSigned, negative, b, c) > 0 then Pad(v, isSigned, negative, b, c) else 0
    ensures Text(v, isSigned, negative, b, c)
         == (if !c.minus && !c.zero then Repeat(' ', padCnt) else []) + Sign(isSigned, negative, c) + Prefix(v, b, c)
            + (if c.zero then Repeat('0', padCnt) else []) + Reverse(Buffer(v, b, c))
                + (if c.minus then Repeat(' ', padCnt) else [])
  {
    hide Buffer, Sign, Prefix, Reverse;
    var pad := Pad(v, isSigned, negative, b, c);
    assert Repeat(' ', pad) == Repeat(' ', padCnt) && Repeat('0', pad) == Repeat('0', padCnt);
  }

  /** The loop that outputs the buffer from its end. */
  method PutReversed(buf: array<char>, cp0: nat, aux: Aux)
    requires aux.Valid() && cp0 <= buf.Length && buf != aux.buffer
    modifies aux`p, aux`length, aux`text, aux.buffer
    ensures aux.Valid() && aux.text == old(aux.text) + Reverse(buf[..cp0])
    ensures forall i | aux.bufSize <= i < aux.buffer.Length :: aux.buffer[i] == old(aux.buffer[i])
  {
    hide Aux.Valid;
    var cp := cp0;
    ghost var was, s := aux.text, buf[..cp0];
    NothingYet(s);
    while cp > 0
      invariant 0 <= cp <= cp0 && aux.Valid() && buf[..cp0] == s
      invariant aux.text == was + Reverse(s[cp..])
      invariant forall i | aux.bufSize <= i < aux.buffer.Length :: aux.buffer[i] == old(aux.buffer[i])
    {
      cp := cp - 1;
      aux.Put(buf[cp]);
      assert s[cp..][1..] == s[cp + 1..];
    }
    assert s[0..] == s;
  }

  lemma NothingYet(s: seq<char>)
    ensures Reverse(s[|s|..]) == []
  {
  }

  /** format_string: the string in a field of the width. */
  method FormatString(s: seq<char>, c: Conversion, aux: Aux)
    requires aux.Valid()
    modifies aux`p, aux`length, aux`text, aux.buffer
    ensures aux.Valid()
    ensures var pad := Repeat(' ', c.width - |s|); aux.text == old(aux.text) + if c.minus then s + pad else pad + s
    ensures |aux.text| == |old(aux.text)| + if c.width > |s| then c.width else |s|
    ensures forall i | aux.bufSize <= i < aux.buffer.Length :: aux.buffer[i] == old(aux.buffer[i])
  {
    hide Aux.Valid;
    ghost var was := aux.text;
    if c.width > |s| && !c.minus {
      aux.PutDup(' ', c.width - |s|);
    }
    ghost var mid := aux.text;
    var i := 0;
    while i < |s|
      invariant 0 <= i <= |s| && aux.Valid() && aux.text == mid + s[..i]
      invariant forall j | aux.bufSize <= j < aux.buffer.Length :: aux.buffer[j] == old(aux.buffer[j])
    {
      aux.Put(s[i]);
      i := i + 1;
    }
    if c.width > |s| && c.minus {
      aux.PutDup(' ', c.width - |s|);
    }
  }
}
