/**
 What the logging printer's conversions mean: which base, case and sign belong to each
 letter, what a width does, and that pieces of a format are printed one after the other.
 */
module Formats {
  import opened Numerals
  import opened Printers

  /** The digits of each base are the first ones of these. */
  const LOWER_DIGITS := "0123456789abcdef"
  const UPPER_DIGITS := "0123456789ABCDEF"

  /** What may stand between the percent sign and the letter as a width. */
  predicate IsWidth(w: string) {
    forall i :: 0 <= i < |w| ==> '0' <= w[i] <= '9'
  }

  /** What may follow it: length letters, then a precision, with anything that does not end the conversion. */
  predicate IsPrecision(p: string) {
    p == "" || (p[0] == 'l' && IsPrecision(p[1..])) || (p[0] == '.' && AllModifiers(p))
  }

  predicate AllModifiers(p: string) {
    forall i :: 0 <= i < |p| ==> p[i] in {'.', 'l'} || '0' <= p[i] <= '9'
  }

  function ZeroPadded(w: string): bool {
    w != "" && w[0] == '0'
  }

  /** A width of w, or of w's digits after the leading zero. */
  function WithWidth(zero: bool, w: string): Format {
    START.(zero := zero, width := if w == "" then -1 else Parse(w, 10))
  }

  function FormatFor(w: string): Format {
    if ZeroPadded(w) then WithWidth(true, w[1..]) else WithWidth(false, w)
  }

  // ---------- one conversion of a format ----------

  lemma {:induction false} Widths(zero: bool, w: string, rest: string, args: seq<Arg>)
    requires IsWidth(w)
    ensures LogOther(WithWidth(zero, ""), w + rest, args) == LogOther(WithWidth(zero, w), rest, args)
    decreases |w|
  {
    if w == "" {
      assert w + rest == rest;
    } else {
      var init, c := w[..|w| - 1], w[|w| - 1];
      assert w + rest == init + ([c] + rest);
      Widths(zero, init, [c] + rest, args);
      OneDigit(zero, init, c, rest, args);
      assert w == init + [c];
    }
  }

  lemma OneDigit(zero: bool, init: string, c: char, rest: string, args: seq<Arg>)
    requires '0' <= c <= '9'
    ensures LogOther(WithWidth(zero, init), [c] + rest, args) == LogOther(WithWidth(zero, init + [c]), rest, args)
  {
    hide Parse;
    assert ([c] + rest)[1..] == rest;
    DigitAdded(init, c);
    assert Modified(WithWidth(zero, init), c) == WithWidth(zero, init + [c]);
  }

  lemma DigitAdded(init: string, c: char)
    requires '0' <= c <= '9'
    ensures Parse(init + [c], 10) == Parse(init, 10) * 10 + (c - '0') as int && Parse("", 10) == 0
  {
    assert (init + [c])[..|init|] == init;
  }

  lemma {:induction false} Precisions(f: Format, p: string, rest: string, args: seq<Arg>) returns (k: int)
    requires IsPrecision(p) || (f.precision >= 0 && AllModifiers(p))
    ensures LogOther(f, p + rest, args) == LogOther(f.(precision := k), rest, args)
    decreases |p|
  {
    if p == "" {
      assert p + rest == rest;
      k := f.precision;
    } else {
      assert (p + rest)[0] == p[0] && (p + rest)[1..] == p[1..] + rest;
      k := Precisions(Modified(f, p[0]), p[1..], rest, args);
    }
  }

  lemma PrecisionIgnored(f: Format, k: int, c: char, args: seq<Arg>)
    ensures ConversionText(f.(precision := k), c, args) == ConversionText(f, c, args)
  {
    hide IntText, Repeat;
    IntIgnores(Converted(f, c), k, NumArg(args));
  }

  lemma IntIgnores(f: Format, k: int, v: U32)
    ensures IntText(f.(precision := k), v) == IntText(f, v)
  {
    hide Numeral, Count, Repeat;
  }

  /** A conversion prints its own text, whatever its precision, and uses up one argument. */
  lemma ConversionPrints(w: string, p: string, c: char, rest: string, args: seq<Arg>)
    requires IsWidth(w) && IsPrecision(p) && TakesArg(c)
    ensures LogText("%" + w + p + [c] + rest, args) ==
      ConversionText(FormatFor(w), c, args) + LogText(rest, Others(args))
  {
    hide ConversionText, LogText, Others;
    var tail := p + ([c] + rest);
    Percent(w, tail, args);
    assert "%" + w + p + [c] + rest == "%" + (w + tail);
    var f := FormatFor(w);
    var k := Precisions(f, p, [c] + rest, args);
    assert ([c] + rest)[1..] == rest;
    PrecisionIgnored(f, k, c, args);
  }

  /** From the percent sign to the end of the width. */
  lemma Percent(w: string, tail: string, args: seq<Arg>)
    requires IsWidth(w) && tail != "" && tail[0] != '%' && !('0' <= tail[0] <= '9')
    ensures LogText("%" + (w + tail), args) == LogOther(FormatFor(w), tail, args)
  {
    hide LogOther;
    var after := w + tail;
    assert ("%" + after)[1..] == after;
    if ZeroPadded(w) {
      assert after[0] == '0' && after[1..] == w[1..] + tail;
      Widths(true, w[1..], tail, args);
    } else {
      assert after[0] == if w == "" then tail[0] else w[0];
      Widths(false, w, tail, args);
    }
  }

  /** The pieces of a format are printed one after the other. */
  lemma PiecesJoin(w: string, p: string, c: char, rest: string, arg: Arg, more: seq<Arg>)
    requires IsWidth(w) && IsPrecision(p) && TakesArg(c)
    ensures LogText("%" + w + p + [c] + rest, [arg] + more) == LogText("%" + w + [c], [arg]) + LogText(rest, more)
  {
    hide LogText, ConversionText;
    ConversionPrints(w, p, c, rest, [arg] + more);
    ConversionPrints(w, "", c, "", [arg]);
    assert "%" + w + "" + [c] + "" == "%" + w + [c];
    SameArg(FormatFor(w), c, arg, more);
    NothingLeft(Others([arg]));
  }

  lemma SameArg(f: Format, c: char, arg: Arg, more: seq<Arg>)
    ensures ConversionText(f, c, [arg] + more) == ConversionText(f, c, [arg]) && Others([arg] + more) == more
  {
    hide IntText;
  }

  lemma NothingLeft(args: seq<Arg>)
    ensures LogText("", args) == ""
  {
  }

  /** So are characters without a percent sign, and a doubled percent sign is one. */
  lemma {:induction false} CharactersCopied(s: string, rest: string, args: seq<Arg>)
    ensures '%' !in s ==> LogText(s + rest, args) == s + LogText(rest, args)
    ensures LogText("%%" + rest, args) == "%" + LogText(rest, args)
    decreases |s|
  {
    assert ("%%" + rest)[1..] == "%" + rest && ("%" + rest)[1..] == rest;
    if s == "" {
      assert s + rest == rest;
    } else {
      assert (s + rest)[0] == s[0] && (s + rest)[1..] == s[1..] + rest;
      CharactersCopied(s[1..], rest, args);
    }
  }

  // ---------- what the letters mean ----------

  /** The shortest way to write a number with these digits. */
  ghost predicate Writes(s: string, v: nat, b: Base, digits: string) {
    && s != "" && Parse(s, b) == v
    && (forall i :: 0 <= i < |s| ==> s[i] in digits)
    && (|s| > 1 ==> s[0] != '0')
  }

  /** A digit's value is its place among the digits. */
  lemma DigitValues(k: nat)
    requires k < 16
    ensures Value(LOWER_DIGITS[k]) == k && Value(UPPER_DIGITS[k]) == k
    ensures Digit(k, false) == LOWER_DIGITS[k] && Digit(k, true) == UPPER_DIGITS[k]
  {
  }

  function DigitsOf(b: Base, upper: bool): string {
    (if upper then UPPER_DIGITS else LOWER_DIGITS)[..b]
  }

  lemma {:induction false} FixedDigits(v: nat, b: Base, k: nat, upper: bool)
    requires v < Pow(b, k)
    ensures forall i :: 0 <= i < k ==> Fixed(v, b, k, upper)[i] in DigitsOf(b, upper)
    decreases k
  {
    hide Lead, Rest;
    if k > 0 {
      var p := Pow(b, k - 1);
      FirstDigit(v, b, p);
      DigitIn(Lead(v, p), b, upper);
      FixedDigits(Rest(v, p), b, k - 1, upper);
    }
  }

  lemma DigitIn(d: nat, b: Base, upper: bool)
    requires d < b
    ensures Digit(d, upper) in DigitsOf(b, upper)
  {
    DigitValues(d);
    assert DigitsOf(b, upper)[d] == Digit(d, upper);
  }

  /** The numeral of a number is the shortest way to write it. */
  lemma NumeralWrites(v: nat, b: Base, upper: bool)
    ensures Writes(Numeral(v, b, upper), v, b, DigitsOf(b, upper))
  {
    hide Lead, Rest, Count, Parse, DigitsOf;
    ParseNumeral(v, b, upper);
    CountBounds(v, b);
    var n := Count(v, b);
    FixedDigits(v, b, n, upper);
    if n > 1 {
      var p := Pow(b, n - 1);
      FirstDigit(v, b, p);
      if Lead(v, p) == 0 {
        assert false;
      }
      NotZero(Lead(v, p), upper);
    }
  }

  lemma NotZero(d: nat, upper: bool)
    requires 0 < d < 16
    ensures Digit(d, upper) != '0'
  {
  }

  /** Each letter's base, case and sign, on every word. */
  lemma LettersMean(v: U32)
    ensures Writes(LogText("%u", [Num(v)]), v, 10, "0123456789")
    ensures Writes(LogText("%o", [Num(v)]), v, 8, "01234567")
    ensures Writes(LogText("%x", [Num(v)]), v, 16, "0123456789abcdef")
    ensures Writes(LogText("%X", [Num(v)]), v, 16, "0123456789ABCDEF")
    ensures LogText("%d", [Num(v)]) == LogText("%i", [Num(v)])
    ensures v < 0x8000_0000 ==> Writes(LogText("%d", [Num(v)]), v, 10, "0123456789")
    ensures v >= 0x8000_0000 ==>
      var text := LogText("%d", [Num(v)]);
      text != "" && text[0] == '-' && Writes(text[1..], 0x1_0000_0000 - v, 10, "0123456789")
  {
    hide *;
    LetterMeans('u', v);
    LetterMeans('o', v);
    LetterMeans('x', v);
    LetterMeans('X', v);
    LetterMeans('d', v);
    LetterMeans('i', v);
    Alphabets();
    assert "%" + ['u'] == "%u" && "%" + ['o'] == "%o" && "%" + ['x'] == "%x";
    assert "%" + ['X'] == "%X" && "%" + ['d'] == "%d" && "%" + ['i'] == "%i";
  }

  lemma LetterMeans(c: char, v: U32)
    requires c in {'d', 'i', 'u', 'o', 'x', 'X'}
    ensures var text := LogText("%" + [c], [Num(v)]);
      && text == (if c == 'i' then BareText('d', v) else BareText(c, v))
      && (!PrintsMinus(c, v) ==> Writes(text, v, BaseOf(c), DigitsOf(BaseOf(c), c == 'X')))
      && (PrintsMinus(c, v) ==> text != "" && text[0] == '-')
      && (PrintsMinus(c, v) ==> Writes(text[1..], 0x1_0000_0000 - v, BaseOf(c), DigitsOf(BaseOf(c), c == 'X')))
  {
    hide LogText, Writes, Numeral, Count, DigitsOf;
    Bare(c, v);
    BareTextIs(c, v);
    NumeralWrites(v, BaseOf(c), c == 'X');
    NumeralWrites(0x1_0000_0000 - v, BaseOf(c), c == 'X');
  }

  lemma Alphabets()
    ensures DigitsOf(10, false) == "0123456789" && DigitsOf(8, false) == "01234567"
    ensures DigitsOf(16, false) == "0123456789abcdef" && DigitsOf(16, true) == "0123456789ABCDEF"
    ensures forall c :: BaseOf(c) == if c == 'o' then 8 else if c in {'x', 'X'} then 16 else 10
    ensures forall c, v :: PrintsMinus(c, v) <==> c in {'d', 'i'} && v >= 0x8000_0000
  {
  }

  /** The base a letter's text is read in. */
  function BaseOf(c: char): Base {
    if c == 'o' then 8 else if c in {'x', 'X'} then 16 else 10
  }

  predicate PrintsMinus(c: char, v: U32) {
    c in {'d', 'i'} && v >= 0x8000_0000
  }

  /** What a letter alone should print. */
  function BareText(c: char, v: U32): string {
    (if PrintsMinus(c, v) then "-" else "")
    + Numeral(if PrintsMinus(c, v) then 0x1_0000_0000 - v else v, BaseOf(c), c == 'X')
  }

  /** A letter alone prints the numeral and nothing else. */
  lemma Bare(c: char, v: U32)
    requires c in {'d', 'i', 'u', 'o', 'x', 'X'}
    ensures LogText("%" + [c], [Num(v)]) == BareText(c, v)
  {
    hide LogText, Numeral, Count;
    ConversionPrints("", "", c, "", [Num(v)]);
    assert "%" + "" + "" + [c] + "" == "%" + [c];
    NothingLeft(Others([Num(v)]));
    Unpadded(Converted(START, c), v);
  }

  lemma Unpadded(f: Format, v: U32)
    requires f.width == -1 && !f.zero
    ensures IntText(f, v) == (if IsNegative(f, v) then "-" else "") + Numeral(Magnitude(f, v), f.base, f.upper)
  {
    hide Numeral, Count;
  }

  /**
   For every string of digits as the width: the text is what the letter alone prints, filled
   up to the width with blanks in front, or with zeros behind the sign if the width begins
   with a zero; and it reads back as the same number.
   */
  lemma WidthMeans(w: string, p: string, c: char, v: U32)
    requires IsWidth(w) && IsPrecision(p) && c in {'d', 'i', 'u', 'o', 'x', 'X'}
    ensures var bare, text := LogText("%" + [c], [Num(v)]), LogText("%" + w + p + [c], [Num(v)]);
      && bare != ""
      && |text| == (if Parse(w, 10) > |bare| then Parse(w, 10) else |bare|)
      && (!ZeroPadded(w) ==> text == Repeat(' ', Parse(w, 10) - |bare|) + bare)
      && (ZeroPadded(w) && bare[0] != '-' ==> text == Repeat('0', Parse(w, 10) - |bare|) + bare)
      && (ZeroPadded(w) && bare[0] == '-' ==> text == "-" + Repeat('0', Parse(w, 10) - |bare|) + bare[1..])
      && ReadInt(text, BaseOf(c)) ==
         if c in {'d', 'i'} && v >= 0x8000_0000 then v - 0x1_0000_0000 else v
  {
    hide *;
    var f := Converted(FormatFor(w), c);
    IntegerPrints(w, p, c, v);
    ConvertedIs(w, c, v);
    PrintThenRead(f, v);
    Bare(c, v);
    Filled(f, v, Parse(w, 10));
    BareTextIs(c, v);
  }

  lemma IntegerPrints(w: string, p: string, c: char, v: U32)
    requires IsWidth(w) && IsPrecision(p) && c in {'d', 'i', 'u', 'o', 'x', 'X'}
    ensures LogText("%" + w + p + [c], [Num(v)]) == IntText(Converted(FormatFor(w), c), v)
  {
    hide LogText, FormatFor, IntText;
    ConversionPrints(w, p, c, "", [Num(v)]);
    assert "%" + w + p + [c] + "" == "%" + w + p + [c];
    NothingLeft(Others([Num(v)]));
  }

  lemma ConvertedIs(w: string, c: char, v: U32)
    requires IsWidth(w) && c in {'d', 'i', 'u', 'o', 'x', 'X'}
    ensures var f := Converted(FormatFor(w), c);
      && f.base == BaseOf(c) && f.zero == ZeroPadded(w) && f.upper == (c == 'X')
      && f.width <= Parse(w, 10) && (f.width < Parse(w, 10) ==> Parse(w, 10) == 0)
      && IsNegative(f, v) == PrintsMinus(c, v)
      && Magnitude(f, v) == (if PrintsMinus(c, v) then 0x1_0000_0000 - v else v)
      && Meaning(f, v) == if c in {'d', 'i'} && v >= 0x8000_0000 then v - 0x1_0000_0000 else v
  {
    hide Parse, FormatFor;
    FormatIs(w);
  }

  lemma BareTextIs(c: char, v: U32)
    ensures var digits := Numeral(if PrintsMinus(c, v) then 0x1_0000_0000 - v else v, BaseOf(c), c == 'X');
      && (!PrintsMinus(c, v) ==> BareText(c, v) == digits)
      && (PrintsMinus(c, v) ==> BareText(c, v) == "-" + digits)
      && (PrintsMinus(c, v) ==> BareText(c, v)[0] == '-' && BareText(c, v)[1..] == digits)
  {
    hide Numeral, Count;
    assert "" + Numeral(v, BaseOf(c), c == 'X') == Numeral(v, BaseOf(c), c == 'X');
  }

  lemma FormatIs(w: string)
    requires IsWidth(w)
    ensures var f := FormatFor(w);
      && f == START.(zero := ZeroPadded(w), width := f.width)
      && f.width <= Parse(w, 10) && (f.width < Parse(w, 10) ==> Parse(w, 10) == 0)
  {
    if ZeroPadded(w) {
      assert w == ['0'] + w[1..];
      ParseFront('0', w[1..], 10);
    }
  }

  lemma Filled(f: Format, v: U32, width: nat)
    requires f.width <= width && (f.width < width ==> width == 0)
    ensures var digits := Numeral(Magnitude(f, v), f.base, f.upper);
      var bare := (if IsNegative(f, v) then "-" else "") + digits;
      && digits != "" && digits[0] != '-'
      && |IntText(f, v)| == (if width > |bare| then width else |bare|)
      && (!f.zero ==> IntText(f, v) == Repeat(' ', width - |bare|) + bare)
      && (f.zero && !IsNegative(f, v) ==> IntText(f, v) == Repeat('0', width - |bare|) + bare)
      && (f.zero && IsNegative(f, v) ==> IntText(f, v) == "-" + Repeat('0', width - |bare|) + digits)
  {
    hide Numeral, Count;
    DigitsStart(Magnitude(f, v), f.base, f.upper);
    var digits := Numeral(Magnitude(f, v), f.base, f.upper);
    var bare := (if IsNegative(f, v) then "-" else "") + digits;
    assert Repeat('0', f.width - |bare|) == Repeat('0', width - |bare|);
    assert Repeat(' ', f.width - |bare|) == Repeat(' ', width - |bare|);
  }

  /** Strings and characters are filled up with blanks in front. */
  lemma TextMeans(w: string, p: string, s: string, v: U32)
    requires IsWidth(w) && IsPrecision(p)
    ensures LogText("%" + w + p + "s", [Str(s)]) == Repeat(' ', Parse(w, 10) - |s|) + s
    ensures LogText("%" + w + p + "c", [Num(v)]) == Repeat(' ', Parse(w, 10) - 1) + [(v % 256) as char]
  {
    hide LogText, Parse, FormatFor, CharOf;
    ConversionPrints(w, p, 's', "", [Str(s)]);
    ConversionPrints(w, p, 'c', "", [Num(v)]);
    assert "%" + w + p + ['s'] + "" == "%" + w + p + "s" && "%" + w + p + ['c'] + "" == "%" + w + p + "c";
    NothingLeft(Others([Str(s)]));
    NothingLeft(Others([Num(v)]));
    FormatIs(w);
    CharIs(v);
  }

  lemma CharIs(v: U32)
    ensures CharOf(v) == (v % 256) as char
  {
  }
}
