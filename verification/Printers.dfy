/**
 The two small printf implementations: the logging one, which finds digits by dividing
 by powers of the base, and the minimal one, which shifts and masks.
 */
module Printers {
  import opened Numerals

  const POW31: nat := 0x8000_0000
  const POW32: nat := 0x1_0000_0000

  type U32 = x: int | 0 <= x < POW32

  /** A variable argument; a missing one, or one of the wrong kind, reads as zero or empty. */
  datatype Arg = Num(v: U32) | Str(s: string)

  function NumArg(args: seq<Arg>): U32 {
    if args != [] && args[0].Num? then args[0].v else 0
  }

  function StrArg(args: seq<Arg>): string {
    if args != [] && args[0].Str? then args[0].s else ""
  }

  function Others(args: seq<Arg>): seq<Arg> {
    if args == [] then [] else args[1..]
  }

  function CharOf(v: U32): char {
    (v % 256) as char
  }

  /** What has been parsed of a conversion; a width or precision not given is negative. */
  datatype Format = Format(zero: bool, width: int, precision: int, base: Base, signed: bool, upper: bool)

  const START := Format(false, -1, -1, 10, true, false)

  function Repeat(c: char, n: int): (s: string)
    ensures |s| == if n > 0 then n else 0
  {
    seq(if n > 0 then n else 0, _ => c)
  }

  predicate IsNegative(f: Format, v: U32) {
    f.signed && v >= POW31
  }

  /** The number without its sign; the most negative one stays as it is. */
  function Magnitude(f: Format, v: U32): U32 {
    if IsNegative(f, v) then POW32 - v else v
  }

  /** An integer conversion: padding, sign and numeral, the sign in front of padding zeros. */
  function IntText(f: Format, v: U32): string {
    var digits := Numeral(Magnitude(f, v), f.base, f.upper);
    var sign := if IsNegative(f, v) then "-" else "";
    var pad := f.width - |digits| - |sign|;
    if f.zero then sign + Repeat('0', pad) + digits else Repeat(' ', pad) + sign + digits
  }

  // ---------- printing and reading back ----------

  /** Read an integer: blanks, a sign, digits. */
  function ReadInt(s: string, b: Base): int {
    if s != "" && s[0] == ' ' then ReadInt(s[1..], b)
    else if s != "" && s[0] == '-' then 0 - Parse(s[1..], b)
    else Parse(s, b)
  }

  /** A word as the integer it stands for. */
  function Meaning(f: Format, v: U32): int {
    if IsNegative(f, v) then v - POW32 else v
  }

  lemma {:induction false} ReadBlanks(n: nat, s: string, b: Base)
    ensures ReadInt(Repeat(' ', n) + s, b) == ReadInt(s, b)
  {
    if n == 0 {
      assert Repeat(' ', n) + s == s;
    } else {
      assert (Repeat(' ', n) + s)[1..] == Repeat(' ', n - 1) + s;
      ReadBlanks(n - 1, s, b);
    }
  }

  lemma DigitsStart(v: nat, b: Base, upper: bool)
    ensures Numeral(v, b, upper) != "" && Numeral(v, b, upper)[0] !in {' ', '-'}
  {
    CountBounds(v, b);
    FirstDigit(v, b, Pow(b, Count(v, b) - 1));
  }

  lemma ReadSigned(negative: bool, digits: string, b: Base)
    requires digits != "" && digits[0] !in {' ', '-'}
    ensures ReadInt((if negative then "-" else "") + digits, b) ==
      if negative then 0 - Parse(digits, b) else Parse(digits, b)
  {
    hide Parse;
    assert ("-" + digits)[1..] == digits && "" + digits == digits;
  }

  lemma Zeros(n: nat, digits: string)
    requires digits != "" && digits[0] !in {' ', '-'}
    ensures Repeat('0', n) + digits != "" && (Repeat('0', n) + digits)[0] !in {' ', '-'}
    ensures Repeat('0', n) == seq(n, _ => '0')
  {
  }

  /** Printing an integer and reading it back is the identity, for every width and flag. */
  lemma PrintThenRead(f: Format, v: U32)
    ensures ReadInt(IntText(f, v), f.base) == Meaning(f, v)
  {
    hide Numeral, Parse, ReadInt, Repeat;
    var negative, digits := IsNegative(f, v), Numeral(Magnitude(f, v), f.base, f.upper);
    var sign := if negative then "-" else "";
    var pad := f.width - |digits| - |sign|;
    var n := if pad > 0 then pad else 0;
    DigitsStart(Magnitude(f, v), f.base, f.upper);
    ParseNumeral(Magnitude(f, v), f.base, f.upper);
    RepeatIs(pad);
    if f.zero {
      Zeros(n, digits);
      ParseZeros(n, digits, f.base);
      ReadSigned(negative, Repeat('0', n) + digits, f.base);
      assert IntText(f, v) == sign + (Repeat('0', n) + digits);
    } else {
      ReadSigned(negative, digits, f.base);
      ReadBlanks(n, sign + digits, f.base);
      assert IntText(f, v) == Repeat(' ', n) + (sign + digits);
    }
  }

  lemma RepeatIs(pad: int)
    ensures var n := if pad > 0 then pad else 0;
      Repeat('0', pad) == Repeat('0', n) && Repeat(' ', pad) == Repeat(' ', n)
  {
  }

  /** The text is as wide as asked for, or as long as the number needs. */
  lemma TextWidth(f: Format, v: U32)
    ensures var natural := Count(Magnitude(f, v), f.base) + if IsNegative(f, v) then 1 else 0;
      |IntText(f, v)| == if f.width > natural then f.width else natural
  {
  }

  // ---------- the format machines, as functions ----------

  /** The logging printer, copying characters. */
  function LogText(fmt: string, args: seq<Arg>): string
    decreases |fmt|, 2
  {
    if fmt == "" then ""
    else if fmt[0] == '%' then LogFirst(fmt[1..], args)
    else [fmt[0]] + LogText(fmt[1..], args)
  }

  /** At the character after a percent sign. */
  function LogFirst(fmt: string, args: seq<Arg>): string
    decreases |fmt|, 1
  {
    if fmt == "" then ""
    else if fmt[0] == '0' then LogOther(START.(zero := true), fmt[1..], args)
    else if fmt[0] == '%' then "%" + LogText(fmt[1..], args)
    else LogOther(START, fmt, args)
  }

  /** Inside a conversion. */
  function LogOther(f: Format, fmt: string, args: seq<Arg>): string
    decreases |fmt|, 0
  {
    if fmt == "" then ""
    else
      var c, rest := fmt[0], fmt[1..];
      if IsModifier(c) then LogOther(Modified(f, c), rest, args)
      else ConversionText(f, c, args) + LogText(rest, if TakesArg(c) then Others(args) else args)
  }

  predicate IsModifier(c: char) {
    c == '.' || '0' <= c <= '9' || c == 'l'
  }

  function Modified(f: Format, c: char): Format
    requires IsModifier(c)
  {
    if c == '.' then f.(precision := 0)
    else if c == 'l' then f
    else
      var d := (c - '0') as int;
      if f.precision < 0 then f.(width := if f.width < 0 then d else f.width * 10 + d)
      else f.(precision := f.precision * 10 + d)
  }

  predicate TakesArg(c: char) {
    c in {'d', 'i', 'u', 'o', 'x', 'X', 'c', 's'}
  }

  function Converted(f: Format, c: char): Format {
    if c == 'u' then f.(signed := false)
    else if c == 'o' then f.(signed := false, base := 8)
    else if c == 'x' then f.(signed := false, base := 16)
    else if c == 'X' then f.(signed := false, base := 16, upper := true)
    else f
  }

  function ConversionText(f: Format, c: char, args: seq<Arg>): string {
    if c in {'d', 'i', 'u', 'o', 'x', 'X'} then IntText(Converted(f, c), NumArg(args))
    else if c == 'c' then Repeat(' ', f.width - 1) + [CharOf(NumArg(args))]
    else if c == 's' then Repeat(' ', f.width - |StrArg(args)|) + StrArg(args)
    else ""
  }

  /** The minimal printer: one character after the percent sign, or the end. */
  function MinText(fmt: string, args: seq<Arg>): string
    decreases |fmt|
  {
    if fmt == "" then ""
    else if fmt[0] != '%' then [fmt[0]] + MinText(fmt[1..], args)
    else if |fmt| == 1 then ""
    else
      var c, rest := fmt[1], fmt[2..];
      if c == '%' then "%" + MinText(rest, args)
      else if c == 'c' then [CharOf(NumArg(args))] + MinText(rest, Others(args))
      else if c == 'x' then Numeral(NumArg(args), 16, false) + MinText(rest, Others(args))
      else if c == 's' then StrArg(args) + MinText(rest, Others(args))
      else MinText(rest, args)
  }

  /** Formats both printers give the same meaning: bare conversions the minimal one knows, or neither. */
  predicate Common(fmt: string)
    decreases |fmt|
  {
    if fmt == "" then true
    else if fmt[0] != '%' then Common(fmt[1..])
    else if |fmt| == 1 then true
    else !IsModifier(fmt[1]) && fmt[1] !in {'d', 'i', 'u', 'o', 'X'} && Common(fmt[2..])
  }

  /** On those, dividing by powers and shifting by nibbles print the same text. */
  lemma {:induction false} PrintersAgree(fmt: string, args: seq<Arg>)
    requires Common(fmt)
    ensures LogText(fmt, args) == MinText(fmt, args)
    decreases |fmt|
  {
    if fmt != "" {
      if fmt[0] != '%' {
        PrintersAgree(fmt[1..], args);
      } else if |fmt| > 1 {
        var c, rest := fmt[1], fmt[2..];
        assert fmt[1..][0] == c && fmt[1..][1..] == rest;
        PrintersAgree(rest, if TakesArg(c) then Others(args) else args);
        if c != '%' {
          BareConversion(c, args);
          assert LogOther(START, fmt[1..], args)
              == ConversionText(START, c, args) + LogText(rest, if TakesArg(c) then Others(args) else args);
        }
      }
    }
  }

  lemma BareConversion(c: char, args: seq<Arg>)
    requires c !in {'d', 'i', 'u', 'o', 'X'}
    ensures ConversionText(START, c, args) ==
      if c == 'x' then Numeral(NumArg(args), 16, false)
      else if c == 'c' then [CharOf(NumArg(args))]
      else if c == 's' then StrArg(args)
      else ""
  {
  }

  // ---------- the printers themselves ----------

  datatype State = Chars | FirstFmtChar | OtherFmtChar

  /** What a state of the logging printer still has to print. */
  function Remaining(state: State, f: Format, fmt: string, args: seq<Arg>): string {
    match state
    case Chars => LogText(fmt, args)
    case FirstFmtChar => LogFirst(fmt, args)
    case OtherFmtChar => LogOther(f, fmt, args)
  }

  lemma AtStart(fmt: string, args: seq<Arg>)
    ensures LogText(fmt, args) == Remaining(Chars, START, fmt[0..], args)
  {
  }

  lemma AtEnd(state: State, f: Format, fmt: string, args: seq<Arg>)
    requires fmt == ""
    ensures Remaining(state, f, fmt, args) == ""
  {
  }

  /** One character of the format, in each state. */
  lemma NextChar(state: State, f: Format, fmt: string, args: seq<Arg>, c: char, rest: string)
    requires fmt != "" && c == fmt[0] && rest == fmt[1..]
    requires state == FirstFmtChar ==> f == START
    ensures Remaining(state, f, fmt, args) ==
      if state == Chars then
        if c == '%' then Remaining(FirstFmtChar, START, rest, args) else [c] + Remaining(Chars, f, rest, args)
      else if state == FirstFmtChar && c == '0' then Remaining(OtherFmtChar, f.(zero := true), rest, args)
      else if state == FirstFmtChar && c == '%' then [c] + Remaining(Chars, f, rest, args)
      else if IsModifier(c) then Remaining(OtherFmtChar, Modified(f, c), rest, args)
      else ConversionText(f, c, args) + Remaining(Chars, f, rest, if TakesArg(c) then Others(args) else args)
  {
    hide ConversionText;
    if state == FirstFmtChar && c != '0' && c != '%' {
      assert LogFirst(fmt, args) == LogOther(START, fmt, args);
    }
  }

  /** The digit a mask and a shift by 4 * k pick out of a word. */
  function Nibble(v: U32, k: nat): nat {
    PowPositive(16, k);
    Lead(v, Pow(16, k)) % 16
  }

  /** The power of the base with as many places as the number has digits. */
  method CountDigits(v: U32, b: Base) returns (digitCount: nat, p: U32)
    ensures digitCount == Count(v, b)
    ensures p == Pow(b, digitCount - 1)
  {
    hide Lead, Rest;
    var shrink: nat := Lead(v, b);
    p, digitCount := 1, 1;
    TopPlace(v, b);
    Scaled(1, b, shrink);
    while shrink > 0
      invariant digitCount >= 1 && p == Pow(b, digitCount - 1)
      invariant digitCount + (if shrink > 0 then Count(shrink, b) else 0) == Count(v, b)
      invariant p * b * shrink <= v
      decreases shrink
    {
      TopPlace(shrink, b);
      NoOverflow(p * b, b, shrink, Lead(shrink, b), v);
      Commutes(p, b);
      digitCount, p := digitCount + 1, p * b;
      shrink := Lead(shrink, b);
    }
  }

  lemma TopPlace(v: nat, b: Base)
    ensures b * Lead(v, b) <= v
    ensures v > 0 ==> Lead(v, b) < v
    ensures Count(v, b) == 1 + if Lead(v, b) > 0 then Count(Lead(v, b), b) else 0
  {
    hide Count;
    Division(v, b);
    if v >= b {
      LeadSmaller(v, b);
      CountStep(v, b);
    } else {
      CountSmall(v, b);
      BelowOne(v, b);
    }
  }

  lemma CountStep(v: nat, b: Base)
    requires v >= b
    ensures Lead(v, b) > 0 && Count(v, b) == 1 + Count(Lead(v, b), b)
  {
  }

  lemma CountSmall(v: nat, b: Base)
    requires v < b
    ensures Count(v, b) == 1
  {
  }

  lemma BelowOne(v: nat, d: nat)
    requires v < d
    ensures Lead(v, d) == 0 && Rest(v, d) == v
  {
  }

  lemma Scaled(p: nat, b: nat, q: nat)
    ensures 1 * b * q == b * q
  {
  }

  lemma NoOverflow(w: nat, b: nat, shrink: nat, q: nat, v: nat)
    requires w * shrink <= v && b * q <= shrink
    ensures shrink > 0 ==> w <= v
    ensures w * b * q <= v
  {
  }

  lemma {:induction false} PowMonotone(b: Base, i: nat, j: nat)
    requires i <= j
    ensures Pow(b, i) <= Pow(b, j)
  {
    if i < j {
      PowMonotone(b, i, j - 1);
      PowPositive(b, j - 1);
      Product(b, Pow(b, j - 1));
    }
  }

  /** The number of digits is where the number falls between two powers. */
  lemma CountIs(v: nat, b: Base, k: nat)
    requires v > 0 && Pow(b, k) <= v < Pow(b, k + 1)
    ensures Count(v, b) == k + 1
  {
    hide Pow, Count;
    CountBounds(v, b);
    var n := Count(v, b);
    if n < k + 1 {
      PowMonotone(b, n, k);
    } else if n > k + 1 {
      PowMonotone(b, k + 1, n - 1);
      if v < b {
        assert false;
      }
    }
  }

  lemma Unique(v: nat, d: nat, q: nat, r: nat)
    requires r < d && v == d * q + r
    ensures Lead(v, d) == q && Rest(v, d) == r
  {
    Division(v, d);
    var q' := v / d;
    if q' < q {
      Ordered(d, q' + 1, q);
      Spread(d, q');
    } else if q < q' {
      Ordered(d, q + 1, q');
      Spread(d, q);
    }
  }

  /** Cutting a number to one place more keeps the digit there and all below it. */
  lemma CutAbove(v: nat, b: Base, p: nat)
    requires p > 0
    ensures b * p > 0 && Rest(v, b * p) < b * p
    ensures Lead(Rest(v, b * p), p) == Lead(v, p) % b
    ensures Rest(Rest(v, b * p), p) == Rest(v, p)
  {
    hide Lead, Rest;
    Product(b, p);
    Quotient(v, b * p);
    var q, r := Lead(v, b * p), Rest(v, b * p);
    Quotient(r, p);
    FirstDigit(r, b, p);
    var d, s := Lead(r, p), Rest(r, p);
    assert v == p * (b * q + d) + s by {
      Regroup(b, p, q, d);
    }
    Unique(v, p, b * q + d, s);
    Remainder(b, q, d);
  }

  lemma Quotient(v: nat, d: nat)
    requires d > 0
    ensures v == d * Lead(v, d) + Rest(v, d) && Rest(v, d) < d
  {
  }

  lemma Regroup(b: nat, p: nat, q: nat, d: nat)
    ensures p * (b * q + d) == (b * p) * q + p * d
  {
  }

  lemma Remainder(b: nat, q: nat, d: nat)
    requires d < b
    ensures (b * q + d) % b == d
  {
    Unique(b * q + d, b, q, d);
  }

  /** The display the characters go to. */
  class Console {
    var text: string

    constructor ()
      ensures text == ""
    {
      text := "";
    }

    method TxChar(c: char)
      modifies this
      ensures text == old(text) + [c]
    {
      text := text + [c];
    }

    method RepChar(c: char, r: int)
      modifies this
      ensures text == old(text) + Repeat(c, r)
    {
      var left := r;
      while left > 0
        invariant left <= r
        invariant text == old(text) + Repeat(c, if left > 0 then r - left else r)
      {
        TxChar(c);
        left := left - 1;
      }
    }

    /** The digit loop of the logging printer: divide by the place value, keep the rest. */
    method EmitDigits(number: U32, place: U32, b: Base, upper: bool, ghost n: nat)
      requires n > 0 && place == Pow(b, n - 1) && number < Pow(b, n)
      modifies this
      ensures text == old(text) + Fixed(number, b, n, upper)
    {
      hide Lead, Rest, Pow, Fixed, Place;
      var v: nat, p: nat := number, place;
      ghost var k: nat := n;
      PlaceValue(b, n);
      while p > 0
        invariant k <= n && p == Place(b, k)
        invariant v < Pow(b, k)
        invariant old(text) + Fixed(number, b, n, upper) == text + Fixed(v, b, k, upper)
        decreases k
      {
        PlaceValue(b, k);
        NextDigit(v, b, k, upper);
        var d: int := Lead(v, p) + '0' as int;
        if d > '9' as int {
          d := d + (if upper then 'A' else 'a') as int - '0' as int - 10;
        }
        TxChar(d as char);
        v := Rest(v, p);
        p := Lead(p, b);
        k := k - 1;
      }
      PlaceValue(b, k);
    }

    /** The integer conversions of the logging printer. */
    method PrintInteger(f: Format, value: U32)
      modifies this
      ensures text == old(text) + IntText(f, value)
    {
      hide Numeral, Fixed, Count, Pow, Parse, Lead, Rest;
      var v, sign := value, false;
      if f.signed && v >= POW31 {
        v := (POW32 - 1 - v) + 1;
        sign := true;
      }
      var digitCount, p := CountDigits(v, f.base);
      var before := f.width - digitCount;
      if f.zero {
        if sign {
          TxChar('-');
          before := before - 1;
        }
        RepChar('0', before);
      } else {
        if sign {
          before := before - 1;
        }
        RepChar(' ', before);
        if sign {
          TxChar('-');
        }
      }
      CountBounds(v, f.base);
      NumeralIsFixed(v, f.base, f.upper);
      EmitDigits(v, p, f.base, f.upper, digitCount);
    }

    /** The logging printer: one pass over the format with a three-state machine. */
    method LogPrintf(fmt: string, arguments: seq<Arg>)
      modifies this
      ensures text == old(text) + LogText(fmt, arguments)
    {
      hide *;
      var state, f, args := Chars, START, arguments;
      var w := 0;
      AtStart(fmt, args);
      while w < |fmt|
        invariant w <= |fmt|
        invariant state == FirstFmtChar ==> f == START
        invariant old(text) + LogText(fmt, arguments) == text + Remaining(state, f, fmt[w..], args)
      {
        var c := fmt[w];
        assert fmt[w..][1..] == fmt[w + 1..];
        NextChar(state, f, fmt[w..], args, c, fmt[w + 1..]);
        if state == Chars {
          if c == '%' {
            f := START;
            state := FirstFmtChar;
          } else {
            TxChar(c);
          }
        } else if state == FirstFmtChar && c == '0' {
          f := f.(zero := true);
          state := OtherFmtChar;
        } else if state == FirstFmtChar && c == '%' {
          TxChar(c);
          state := Chars;
        } else if IsModifier(c) {
          f := Modified(f, c);
          state := OtherFmtChar;
        } else {
          args := Convert(f, c, args);
          state := Chars;
        }
        w := w + 1;
      }
      AtEnd(state, f, fmt[w..], args);
    }

    /** The letter that ends a conversion. */
    method Convert(f: Format, c: char, args: seq<Arg>) returns (left: seq<Arg>)
      modifies this
      ensures text == old(text) + ConversionText(f, c, args)
      ensures left == if TakesArg(c) then Others(args) else args
    {
      left := args;
      if c in {'d', 'i', 'u', 'o', 'x', 'X'} {
        PrintInteger(Converted(f, c), NumArg(args));
        left := Others(args);
      } else if c == 'c' {
        RepChar(' ', f.width - 1);
        TxChar(CharOf(NumArg(args)));
        left := Others(args);
      } else if c == 's' {
        RepChar(' ', f.width - |StrArg(args)|);
        PutString(StrArg(args));
        left := Others(args);
      }
    }

    method PutString(s: string)
      modifies this
      ensures text == old(text) + s
    {
      var i := 0;
      while i < |s|
        invariant i <= |s|
        invariant text == old(text) + s[..i]
      {
        TxChar(s[i]);
        i := i + 1;
      }
    }

    /** The hexadecimal conversion of the minimal printer: find the first digit that is not zero, shift down. */
    method PrintHex(v: U32)
      modifies this
      ensures text == old(text) + Numeral(v, 16, false)
    {
      hide Lead, Rest, Fixed, Count;
      if v == 0 {
        ZeroNumeral();
        TxChar('0');
        return;
      }
      WordDigits();
      var shift := 28;
      while Nibble(v, shift / 4) == 0
        invariant 0 <= shift <= 28 && shift % 4 == 0
        invariant v < Pow(16, shift / 4 + 1) && text == old(text)
        decreases shift
      {
        LeadingZero(v, shift / 4);
        shift := shift - 4;
      }
      FirstNibble(v, shift / 4);
      while shift >= 0
        invariant -4 <= shift <= 28 && shift % 4 == 0
        invariant old(text) + Numeral(v, 16, false) == text + Below(v, shift / 4 + 1)
      {
        NextNibble(v, shift / 4);
        var digit := Nibble(v, shift / 4);
        TxChar(if digit <= 9 then '0' + digit as char else 'a' + (digit - 10) as char);
        shift := shift - 4;
      }
      assert Below(v, 0) == "";
    }

    /** The minimal printer. */
    method MinPrintf(fmt: string, arguments: seq<Arg>)
      modifies this
      ensures text == old(text) + MinText(fmt, arguments)
    {
      hide Numeral, CharOf;
      var args := arguments;
      var w := 0;
      while w < |fmt|
        invariant w <= |fmt|
        invariant old(text) + MinText(fmt, arguments) == text + MinText(fmt[w..], args)
      {
        ghost var here := fmt[w..];
        var c := fmt[w];
        assert here[0] == c && here[1..] == fmt[w + 1..];
        w := w + 1;
        if c != '%' {
          TxChar(c);
        } else {
          if w == |fmt| {
            break;
          }
          c := fmt[w];
          assert here[1] == c && here[2..] == fmt[w + 1..];
          w := w + 1;
          args := MinConvert(c, args);
        }
      }
    }

    method MinConvert(c: char, args: seq<Arg>) returns (left: seq<Arg>)
      modifies this
      ensures text == old(text) + (if c == '%' then "%" else if c == 'c' then [CharOf(NumArg(args))]
        else if c == 'x' then Numeral(NumArg(args), 16, false) else if c == 's' then StrArg(args) else "")
      ensures left == if c in {'c', 'x', 's'} then Others(args) else args
    {
      hide Numeral;
      left := args;
      if c == '%' {
        TxChar(c);
      } else if c == 'c' {
        TxChar(CharOf(NumArg(args)));
        left := Others(args);
      } else if c == 'x' {
        PrintHex(NumArg(args));
        left := Others(args);
      } else if c == 's' {
        PutString(StrArg(args));
        left := Others(args);
      }
    }
  }

  /** The place value with k digits left to print. */
  function Place(b: Base, k: nat): nat {
    if k == 0 then 0 else Pow(b, k - 1)
  }

  lemma PlaceValue(b: Base, k: nat)
    ensures Place(b, k) == 0 <==> k == 0
    ensures k > 0 ==> Place(b, k) == Pow(b, k - 1) && Lead(Place(b, k), b) == Place(b, k - 1)
  {
    hide Lead;
    if k > 0 {
      PowPositive(b, k - 1);
      if k == 1 {
        BelowOne(1, b);
      } else {
        Unique(Pow(b, k - 1), b, Pow(b, k - 2), 0);
      }
    }
  }

  lemma NextDigit(v: nat, b: Base, k: nat, upper: bool)
    requires k > 0 && v < Pow(b, k)
    ensures Pow(b, k - 1) > 0 && Lead(v, Pow(b, k - 1)) < 16 && Rest(v, Pow(b, k - 1)) < Pow(b, k - 1)
    ensures Fixed(v, b, k, upper) ==
      [Digit(Lead(v, Pow(b, k - 1)), upper)] + Fixed(Rest(v, Pow(b, k - 1)), b, k - 1, upper)
  {
    hide Lead, Rest;
    FirstDigit(v, b, Pow(b, k - 1));
  }

  lemma NumeralIsFixed(v: nat, b: Base, upper: bool)
    ensures v < Pow(b, Count(v, b)) && Numeral(v, b, upper) == Fixed(v, b, Count(v, b), upper)
  {
    CountBounds(v, b);
  }

  lemma ZeroNumeral()
    ensures Numeral(0, 16, false) == "0"
  {
  }

  lemma WordDigits()
    ensures Pow(16, 8) == POW32
  {
  }

  /** The lowest k hexadecimal digits of a word. */
  function Below(v: U32, k: nat): string {
    PowPositive(16, k);
    Quotient(v, Pow(16, k));
    Fixed(Rest(v, Pow(16, k)), 16, k, false)
  }

  lemma LeadingZero(v: U32, k: nat)
    requires v > 0 && v < Pow(16, k + 1) && Nibble(v, k) == 0
    ensures k > 0 && v < Pow(16, k)
  {
    hide Lead, Rest;
    PowPositive(16, k);
    FirstDigit(v, 16, Pow(16, k));
    assert Pow(16, k) * Lead(v, Pow(16, k)) == 0;
  }

  lemma FirstNibble(v: U32, k: nat)
    requires v < Pow(16, k + 1) && Nibble(v, k) != 0
    ensures Numeral(v, 16, false) == Below(v, k + 1)
  {
    hide Lead, Rest, Fixed, Count;
    PowPositive(16, k);
    var p := Pow(16, k);
    FirstDigit(v, 16, p);
    Ordered(p, 1, Lead(v, p));
    CountIs(v, 16, k);
    BelowOne(v, Pow(16, k + 1));
  }

  lemma NextNibble(v: U32, k: nat)
    ensures Nibble(v, k) < 16
    ensures Below(v, k + 1) == [Digit(Nibble(v, k), false)] + Below(v, k)
  {
    hide Lead, Rest;
    PowPositive(16, k);
    CutAbove(v, 16, Pow(16, k));
  }
}
