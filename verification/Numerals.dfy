/**
 Numerals in bases 2 to 16: writing a number most significant digit first, and
 reading it back.
 */
module Numerals {

  type Base = b: nat | 2 <= b <= 16 witness 10

  function Pow(b: nat, k: nat): nat {
    if k == 0 then 1 else b * Pow(b, k - 1)
  }

  lemma {:induction false} PowPositive(b: Base, k: nat)
    ensures Pow(b, k) > 0
  {
    if k > 0 {
      PowPositive(b, k - 1);
      Product(b, Pow(b, k - 1));
    }
  }

  lemma Product(a: nat, b: nat)
    requires a > 0 && b > 0
    ensures a * b >= a && a * b >= b
  {
  }

  /** A digit below sixteen, with letters of either case past nine. */
  function Digit(d: nat, upper: bool): char
    requires d < 16
  {
    if d <= 9 then '0' + d as char
    else (if upper then 'A' else 'a') + (d - 10) as char
  }

  function Value(c: char): nat {
    if '0' <= c <= '9' then (c - '0') as nat
    else if 'a' <= c <= 'f' then (c - 'a') as nat + 10
    else if 'A' <= c <= 'F' then (c - 'A') as nat + 10
    else 0
  }

  lemma ValueOfDigit(d: nat, upper: bool)
    requires d < 16
    ensures Value(Digit(d, upper)) == d
  {
  }

  /** Reading: each digit counts base times less than the one before. */
  function Parse(s: string, b: Base): nat {
    if s == "" then 0 else Parse(s[..|s| - 1], b) * b + Value(s[|s| - 1])
  }

  /** The digit in front of the places below p, and what is left of it. */
  function Lead(v: nat, p: nat): nat
    requires p > 0
  {
    v / p
  }

  function Rest(v: nat, p: nat): nat
    requires p > 0
  {
    v % p
  }

  /** Exactly k digits, most significant first. */
  function Fixed(v: nat, b: Base, k: nat, upper: bool): (s: string)
    requires v < Pow(b, k)
    ensures |s| == k
    decreases k
  {
    if k == 0 then ""
    else
      hide Lead, Rest;
      FirstDigit(v, b, Pow(b, k - 1));
      [Digit(Lead(v, Pow(b, k - 1)), upper)] + Fixed(Rest(v, Pow(b, k - 1)), b, k - 1, upper)
  }

  lemma FirstDigit(v: nat, b: Base, p: nat)
    requires v < b * p
    ensures p > 0 && Lead(v, p) < b && Rest(v, p) < p && v == p * Lead(v, p) + Rest(v, p)
  {
  }

  lemma Division(v: nat, d: nat)
    requires d > 0
    ensures v == d * (v / d) + v % d && v % d < d
  {
  }

  lemma Ordered(m: nat, a: nat, b: nat)
    ensures a <= b ==> m * a <= m * b
  {
  }

  /** The number of digits a number needs. */
  function Count(v: nat, b: Base): (n: nat)
    ensures n >= 1
  {
    if v < b then 1
    else
      LeadSmaller(v, b);
      1 + Count(Lead(v, b), b)
  }

  lemma LeadSmaller(v: nat, b: nat)
    requires 2 <= b <= v
    ensures Lead(v, b) < v && v == b * Lead(v, b) + Rest(v, b) && Rest(v, b) < b
  {
  }

  /** That many digits suffice, and fewer do not. */
  lemma {:induction false} CountBounds(v: nat, b: Base)
    ensures v < Pow(b, Count(v, b))
    ensures v >= b ==> Pow(b, Count(v, b) - 1) <= v
    ensures v < b ==> Count(v, b) == 1
  {
    hide Lead, Rest;
    assert Pow(b, 1) == b * Pow(b, 0) == b;
    if v >= b {
      var q := Lead(v, b);
      var n := Count(q, b);
      LeadSmaller(v, b);
      CountBounds(q, b);
      Ordered(b, q + 1, Pow(b, n));
      Spread(b, q);
      Ordered(b, Pow(b, n - 1), q);
    }
  }

  lemma Spread(b: nat, q: nat)
    ensures b * (q + 1) == b * q + b
  {
  }

  /** The numeral of a number: as many digits as it needs. */
  function Numeral(v: nat, b: Base, upper: bool): (s: string)
    ensures |s| == Count(v, b)
  {
    CountBounds(v, b);
    Fixed(v, b, Count(v, b), upper)
  }

  /** A digit put in front counts for its full place. */
  lemma {:induction false} ParseFront(c: char, s: string, b: Base)
    ensures Parse([c] + s, b) == Value(c) * Pow(b, |s|) + Parse(s, b)
  {
    if s == "" {
      assert ([c] + s)[..0] == "";
    } else {
      var init, last := s[..|s| - 1], s[|s| - 1];
      assert ([c] + s)[..|s|] == [c] + init;
      ParseFront(c, init, b);
      Distribute(Value(c), Pow(b, |init|), Parse(init, b), b);
    }
  }

  lemma Distribute(x: nat, p: nat, y: nat, b: nat)
    ensures (x * p + y) * b == x * (b * p) + y * b
  {
  }

  lemma {:induction false} ParseFixed(v: nat, b: Base, k: nat, upper: bool)
    requires v < Pow(b, k)
    ensures Parse(Fixed(v, b, k, upper), b) == v
  {
    hide Lead, Rest;
    if k > 0 {
      var p := Pow(b, k - 1);
      FirstDigit(v, b, p);
      var d, rest := Lead(v, p), Rest(v, p);
      ParseFixed(rest, b, k - 1, upper);
      ValueOfDigit(d, upper);
      ParseFront(Digit(d, upper), Fixed(rest, b, k - 1, upper), b);
      Commutes(p, d);
    }
  }

  lemma Commutes(a: nat, b: nat)
    ensures a * b == b * a
  {
  }

  /** Reading a numeral back gives the number. */
  lemma ParseNumeral(v: nat, b: Base, upper: bool)
    ensures Parse(Numeral(v, b, upper), b) == v
  {
    CountBounds(v, b);
    ParseFixed(v, b, Count(v, b), upper);
  }

  /** Leading zeros change nothing. */
  lemma {:induction false} ParseZeros(n: nat, s: string, b: Base)
    ensures Parse(seq(n, _ => '0') + s, b) == Parse(s, b)
  {
    if n == 0 {
      assert seq(n, _ => '0') + s == s;
    } else {
      assert seq(n, _ => '0') + s == ['0'] + (seq(n - 1, _ => '0') + s);
      ParseFront('0', seq(n - 1, _ => '0') + s, b);
      ParseZeros(n - 1, s, b);
    }
  }
}
