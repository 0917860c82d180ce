/** The conversion options of a printf format (parse_conversion in lib/stdio.c). A format ends
    with a null character. */
module PrintfParse {
  import opened Options
  import opened Printf

  function CharAt(s: seq<char>, i: nat): char { if i < |s| then s[i] else '\0' }

  predicate IsFlag(ch: char) { ch in "-+ #0'" }

  predicate IsDigit(ch: char) { '0' <= ch <= '9' }

  /** The first character at or after i that is no flag. */
  function SkipFlags(s: seq<char>, i: nat): (j: nat)
    ensures i <= j && (i <= |s| ==> j <= |s|) && !IsFlag(CharAt(s, j))
    ensures forall k | i <= k < j :: IsFlag(CharAt(s, k))
    decreases |s| - i
  {
    if i < |s| && IsFlag(s[i]) then SkipFlags(s, i + 1) else i
  }

  function SkipDigits(s: seq<char>, i: nat): (j: nat)
    ensures i <= j && (i <= |s| ==> j <= |s|) && !IsDigit(CharAt(s, j))
    ensures forall k | i <= k < j :: IsDigit(CharAt(s, k))
    decreases |s| - i
  {
    if i < |s| && IsDigit(s[i]) then SkipDigits(s, i + 1) else i
  }

  /** The number that the decimal digits from i to j write. */
  function Number(s: seq<char>, i: nat, j: nat): nat
    requires i <= j <= |s|
  {
    if i == j then 0 else 10 * Number(s, i, j - 1) + DigitValue(s[j - 1])
  }

  /** A width or a precision as written: its value, where it ends, and the arguments left. */
  datatype Field = Field(value: int, next: nat, args: seq<int>)

  /** '*' takes its value from the arguments. */
  ghost function Value(s: seq<char>, i: nat, args: seq<int>): Field
    requires i <= |s| && (CharAt(s, i) == '*' ==> args != [])
  {
    if CharAt(s, i) == '*' then Field(args[0], i + 1, args[1..])
    else Field(Number(s, i, SkipDigits(s, i)), SkipDigits(s, i), args)
  }

  ghost function Flags(s: seq<char>, start: nat): seq<char>
    requires start <= |s|
  {
    s[start..SkipFlags(s, start)]
  }

  /** Each '*' has an argument. */
  ghost predicate Supplied(s: seq<char>, start: nat, args: seq<int>)
    requires start <= |s|
  {
    && (CharAt(s, SkipFlags(s, start)) == '*' ==> args != [])
    && var w := Value(s, SkipFlags(s, start), args);
       CharAt(s, w.next) == '.' && CharAt(s, w.next + 1) == '*' ==> w.args != []
  }

  ghost function Width(s: seq<char>, start: nat, args: seq<int>): (w: Field)
    requires start <= |s| && Supplied(s, start, args)
    ensures w.next <= |s|
  {
    Value(s, SkipFlags(s, start), args)
  }

  /** A precision left out, or negative, is -1. */
  ghost function Precision(s: seq<char>, start: nat, args: seq<int>): (p: Field)
    requires start <= |s| && Supplied(s, start, args)
    ensures p.next <= |s| && p.value >= -1
  {
    var w := Width(s, start, args);
    if CharAt(s, w.next) != '.' then Field(-1, w.next, w.args)
    else
      var p := Value(s, w.next + 1, w.args);
      if p.value < 0 then p.(value := -1) else p
  }

  /** What the options mean: '-' or a negative width justifies left; '0' is overridden by '-' among
      the flags and by a precision, ' ' by '+'. */
  ghost function Parsed(s: seq<char>, start: nat, args: seq<int>): Conversion
    requires start <= |s| && Supplied(s, start, args)
  {
    var flags, w, p := Flags(s, start), Width(s, start, args), Precision(s, start, args);
    Conversion('-' in flags || w.value < 0, '+' in flags, ' ' in flags && '+' !in flags, '#' in flags,
               '0' in flags && '-' !in flags && p.value < 0, '\'' in flags,
               if w.value < 0 then -w.value else w.value, p.value)
  }

  // ---------------------------------------------------------------
  // A conversion written out is read back
  // ---------------------------------------------------------------

  /** The decimal digits of n; none for 0. */
  ghost function Decimal(n: nat): (r: seq<char>)
    ensures n > 0 ==> r != [] && '1' <= r[0] <= '9'
    ensures forall i | 0 <= i < |r| :: IsDigit(r[i])
  {
    if n == 0 then [] else Decimal(n / 10) + ['0' + (n % 10) as char]
  }

  ghost function FlagIf(on: bool, ch: char): seq<char> { if on then [ch] else [] }

  ghost function FlagText(c: Conversion): seq<char> {
    FlagIf(c.minus, '-') + FlagIf(c.plus, '+') + FlagIf(c.space, ' ') + FlagIf(c.pound, '#') + FlagIf(c.zero, '0')
    + FlagIf(c.group, '\'')
  }

  lemma InFlagIf(on: bool, ch: char, x: char)
    ensures x in FlagIf(on, ch) <==> on && x == ch
  {
  }

  lemma InFlagText(c: Conversion, x: char)
    ensures x in FlagText(c) <==>
              (c.minus && x == '-') || (c.plus && x == '+') || (c.space && x == ' ') || (c.pound && x == '#')
              || (c.zero && x == '0') || (c.group && x == '\'')
  {
    hide FlagIf;
    InFlagIf(c.minus, '-', x);
    InFlagIf(c.plus, '+', x);
    InFlagIf(c.space, ' ', x);
    InFlagIf(c.pound, '#', x);
    InFlagIf(c.zero, '0', x);
    InFlagIf(c.group, '\'', x);
  }

  ghost function PrecisionText(c: Conversion): seq<char> {
    if c.precision >= 0 then ['.'] + Decimal(c.precision) else []
  }

  /** The options of a conversion as a format would have them. */
  ghost function Written(c: Conversion): seq<char>
    requires c.width >= 0
  {
    FlagText(c) + (Decimal(c.width) + PrecisionText(c))
  }

  /** No flag that another overrides. */
  ghost predicate Plain(c: Conversion) {
    c.width >= 0 && c.precision >= -1 && !(c.plus && c.space) && (c.zero ==> !c.minus && c.precision < 0)
  }

  lemma FlagsEnd(s: seq<char>, i: nat, j: nat)
    requires i <= j <= |s| && (forall k | i <= k < j :: IsFlag(s[k])) && !IsFlag(CharAt(s, j))
    ensures SkipFlags(s, i) == j
  {
  }

  lemma DigitsEnd(s: seq<char>, i: nat, j: nat)
    requires i <= j <= |s| && (forall k | i <= k < j :: IsDigit(s[k])) && !IsDigit(CharAt(s, j))
    ensures SkipDigits(s, i) == j
  {
  }

  lemma {:induction false} DecimalReads(s: seq<char>, i: nat, j: nat, n: nat)
    requires i <= j <= |s| && s[i..j] == Decimal(n)
    ensures Number(s, i, j) == n
    decreases n
  {
    if n > 0 {
      var d := Decimal(n);
      assert s[i..j - 1] == d[..|d| - 1] && d[..|d| - 1] == Decimal(n / 10) && s[j - 1] == d[|d| - 1];
      DecimalReads(s, i, j - 1, n / 10);
    }
  }

  /** A number at i, or none for 0, is taken from there. */
  lemma ValueReads(s: seq<char>, i: nat, n: nat, args: seq<int>)
    requires i + |Decimal(n)| <= |s| && s[i..i + |Decimal(n)|] == Decimal(n)
    requires !IsDigit(CharAt(s, i + |Decimal(n)|)) && CharAt(s, i + |Decimal(n)|) != '*'
    ensures CharAt(s, i) != '*' && Value(s, i, args) == Field(n, i + |Decimal(n)|, args)
  {
    var j := i + |Decimal(n)|;
    forall k | i <= k < j
      ensures IsDigit(s[k])
    {
      assert s[i..j][k - i] == Decimal(n)[k - i];
    }
    DigitsEnd(s, i, j);
    DecimalReads(s, i, j, n);
  }

  lemma CharAfter(s: seq<char>, t: seq<char>, i: nat)
    ensures CharAt(s + t, |s| + i) == CharAt(t, i)
  {
  }

  /** The flags end where the width begins, or what follows it. */
  lemma FlagsRead(c: Conversion, rest: seq<char>, n: nat)
    requires !IsFlag(CharAt(rest, 0))
    ensures var s, f := FlagText(c) + (Decimal(n) + rest), FlagText(c);
            SkipFlags(s, 0) == |f| && Flags(s, 0) == f
  {
    hide FlagText, Decimal, SkipFlags;
    var s, f := FlagText(c) + (Decimal(n) + rest), FlagText(c);
    CharAfter(f, Decimal(n) + rest, 0);
    if n == 0 {
      NoDigits();
      assert Decimal(n) + rest == rest;
    }
    forall k | 0 <= k < |f|
      ensures IsFlag(s[k])
    {
      assert s[k] == f[k];
      InFlagText(c, f[k]);
    }
    FlagsEnd(s, 0, |f|);
    assert s[0..|f|] == f;
  }

  lemma NoDigits()
    ensures Decimal(0) == []
  {
  }

  lemma FlagsMean(c: Conversion)
    ensures var f := FlagText(c);
            && ('-' in f <==> c.minus) && ('+' in f <==> c.plus) && (' ' in f <==> c.space) && ('#' in f <==> c.pound)
            && ('0' in f <==> c.zero) && ('\'' in f <==> c.group)
  {
    hide FlagText;
    InFlagText(c, '-');
    InFlagText(c, '+');
    InFlagText(c, ' ');
    InFlagText(c, '#');
    InFlagText(c, '0');
    InFlagText(c, '\'');
  }

  lemma ValueAfter(before: seq<char>, n: nat, rest: seq<char>, args: seq<int>)
    requires !IsDigit(CharAt(rest, 0)) && CharAt(rest, 0) != '*'
    ensures var s, i := before + (Decimal(n) + rest), |before|;
            CharAt(s, i) != '*' && Value(s, i, args) == Field(n, i + |Decimal(n)|, args)
  {
    hide Decimal, Value;
    var s, i := before + (Decimal(n) + rest), |before|;
    assert s == (before + Decimal(n)) + rest;
    CharAfter(before + Decimal(n), rest, 0);
    ValueReads(s, i, n, args);
  }

  lemma AfterWidth(c: Conversion, rest: seq<char>)
    requires !IsFlag(CharAt(rest, 0)) && !IsDigit(CharAt(rest, 0)) && CharAt(rest, 0) !in "*."
    ensures var ch := CharAt(PrecisionText(c) + rest, 0);
            !IsFlag(ch) && !IsDigit(ch) && ch != '*' && (ch == '.' <==> c.precision >= 0)
  {
    hide Decimal;
    if c.precision < 0 { assert [] + rest == rest; }
  }

  /** parse_conversion makes of the options the conversion that was written, and stops behind them. */
  lemma WrittenParses(c: Conversion, rest: seq<char>, args: seq<int>)
    requires Plain(c) && !IsFlag(CharAt(rest, 0)) && !IsDigit(CharAt(rest, 0)) && CharAt(rest, 0) !in "*."
    ensures var s := Written(c) + rest;
            && Supplied(s, 0, args) && Parsed(s, 0, args) == c
            && Precision(s, 0, args).next == |Written(c)| && Precision(s, 0, args).args == args
  {
    hide Decimal, FlagText, Value, SkipFlags, Flags, IsFlag, IsDigit;
    AfterWidth(c, rest);
    var s, f, w, p := Written(c) + rest, FlagText(c), Decimal(c.width), PrecisionText(c);
    assert s == f + (w + (p + rest)) && s == (f + w) + (p + rest);
    CharAfter(f + w, p + rest, 0);
    FlagsRead(c, p + rest, c.width);
    FlagsMean(c);
    ValueAfter(f, c.width, p + rest, args);
    if c.precision >= 0 {
      var q := Decimal(c.precision);
      assert s == (f + w + ['.']) + (q + rest);
      CharAfter(f + w, p + rest, 1);
      ValueAfter(f + w + ['.'], c.precision, rest, args);
    } else {
      assert p + rest == rest;
    }
  }

  // ---------------------------------------------------------------
  // parse_conversion
  // ---------------------------------------------------------------

  method ParseFlags(s: seq<char>, start: nat) returns (c: Conversion, next: nat)
    requires start <= |s|
    ensures next == SkipFlags(s, start)
    ensures var flags := Flags(s, start);
            c == Conversion('-' in flags, '+' in flags, ' ' in flags && '+' !in flags, '#' in flags,
                            '0' in flags && '-' !in flags, '\'' in flags, 0, -1)
  {
    next := start;
    c := Conversion(false, false, false, false, false, false, 0, -1);
    assert s[start..start] == [];
    while IsFlag(CharAt(s, next))
      invariant start <= next <= SkipFlags(s, start) && SkipFlags(s, next) == SkipFlags(s, start)
      invariant var seen := s[start..next];
                c == Conversion('-' in seen, '+' in seen, ' ' in seen, '#' in seen, '0' in seen, '\'' in seen, 0, -1)
      decreases |s| - next
    {
      assert s[start..next + 1] == s[start..next] + [s[next]];
      match s[next] {
        case '-' => c := c.(minus := true);
        case '+' => c := c.(plus := true);
        case ' ' => c := c.(space := true);
        case '#' => c := c.(pound := true);
        case '0' => c := c.(zero := true);
        case _ => c := c.(group := true);
      }
      next := next + 1;
    }
    if c.minus { c := c.(zero := false); }
    if c.plus { c := c.(space := false); }
  }

  method ParseValue(s: seq<char>, start: nat, args: seq<int>) returns (f: Field)
    requires start <= |s| && (CharAt(s, start) == '*' ==> args != [])
    ensures f == Value(s, start, args) && f.next <= |s|
  {
    if CharAt(s, start) == '*' {
      return Field(args[0], start + 1, args[1..]);
    }
    var value, i := 0, start;
    while IsDigit(CharAt(s, i))
      invariant start <= i <= SkipDigits(s, start) && SkipDigits(s, i) == SkipDigits(s, start)
      invariant value == Number(s, start, i)
      decreases |s| - i
    {
      value, i := 10 * value + DigitValue(s[i]), i + 1;
    }
    f := Field(value, i, args);
  }

  method ParseConversion(s: seq<char>, start: nat, args: seq<int>) returns (c: Conversion, next: nat, rest: seq<int>)
    requires start <= |s| && Supplied(s, start, args)
    ensures c == Parsed(s, start, args)
    ensures next == Precision(s, start, args).next && rest == Precision(s, start, args).args
  {
    hide SkipFlags, Value, Flags;
    c, next := ParseFlags(s, start);
    var w := ParseValue(s, next, args);
    c, next, rest := c.(width := w.value), w.next, w.args;
    if c.width < 0 {
      c := c.(width := -c.width, minus := true);
    }
    if CharAt(s, next) == '.' {
      var p := ParseValue(s, next + 1, rest);
      c, next, rest := c.(precision := if p.value < 0 then -1 else p.value), p.next, p.args;
    }
    if c.precision >= 0 { c := c.(zero := false); }
  }

  // ---------------------------------------------------------------
  // What the options lead to
  // ---------------------------------------------------------------

  /** Both paddings are in force just when '0' is among the flags and '-' is not, the width is a
      negative argument, and no precision is given. */
  lemma BothPaddings(s: seq<char>, start: nat, args: seq<int>)
    requires start <= |s| && Supplied(s, start, args)
    ensures var c, flags := Parsed(s, start, args), Flags(s, start);
            c.minus && c.zero <==>
              && '0' in flags && '-' !in flags && Precision(s, start, args).value < 0
              && CharAt(s, SkipFlags(s, start)) == '*' && args[0] < 0
  {
  }

  /** So a number comes out in a field of the width its format asks for, or in its own length, if
      and only if that is not the case or there is nothing to pad. */
  lemma FormatWidth(s: seq<char>, start: nat, args: seq<int>, v: nat, isSigned: bool, negative: bool, b: Base)
    requires start <= |s| && Supplied(s, start, args)
    ensures var c := Parsed(s, start, args);
            var n, natural := |Text(v, isSigned, negative, b, c)|, NaturalLength(v, isSigned, negative, b, c);
            n == (if c.width > natural then c.width else natural) <==>
              !(&& '0' in Flags(s, start) && '-' !in Flags(s, start) && Precision(s, start, args).value < 0
                && CharAt(s, SkipFlags(s, start)) == '*' && args[0] < 0 && -args[0] > natural)
  {
    hide Text, NaturalLength, Supplied, Flags;
    BothPaddings(s, start, args);
    FieldWidth(v, isSigned, negative, b, Parsed(s, start, args));
  }

  /** printf ("%0*d", -5, 7) puts out nine characters in a field of five. */
  lemma DoublePaddingExample()
    ensures Supplied("0*d", 0, [-5])
    ensures Parsed("0*d", 0, [-5]) == Conversion(true, false, false, false, true, false, 5, -1)
    ensures Text(7, true, false, Dec, Parsed("0*d", 0, [-5])) == "00007    "
  {
    assert SkipFlags("0*d", 0) == SkipFlags("0*d", 1) == 1;
    var c := Parsed("0*d", 0, [-5]);
    hide Supplied, Parsed;
    OneDigit();
    assert Buffer(7, Dec, c) == ['7'];
    assert Repeat('0', 4) == "0000" && Repeat(' ', 4) == "    ";
    assert Reverse(['7']) == ['7'];
  }

  lemma LongPrecisionParsed()
    ensures Supplied(".64d", 0, [])
    ensures Parsed(".64d", 0, []) == Conversion(false, false, false, false, false, false, 0, 64)
  {
    var s := ".64d";
    assert SkipFlags(s, 0) == 0 && SkipDigits(s, 0) == 0;
    assert SkipDigits(s, 1) == SkipDigits(s, 2) == SkipDigits(s, 3) == 3;
    assert s[0..0] == [];
    assert Number(s, 1, 3) == 64;
  }

  /** printf ("%.64d", 7) puts out 63 digits. */
  lemma LongPrecisionExample()
    ensures Supplied(".64d", 0, []) && Parsed(".64d", 0, []).precision == 64
    ensures |Text(7, true, false, Dec, Parsed(".64d", 0, []))| == 63
  {
    hide Supplied, Parsed, Text, Buffer, Raw;
    LongPrecisionParsed();
    var c := Parsed(".64d", 0, []);
    NumeralLength(7, Dec, c);
    FieldWidth(7, true, false, Dec, c);
    OneDigit();
  }

  lemma OneDigit()
    ensures Raw(7, Dec, false, 0) == ['7']
  {
  }
}
