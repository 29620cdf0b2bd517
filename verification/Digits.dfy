/** Numerals: digits as characters, and reading them back. */
module Digits {
  import opened Words

  function DigitChar(d: nat, upper: bool): char
    requires d < 16
  {
    if d < 10 then '0' + d as char else (if upper then 'A' else 'a') + (d - 10) as char
  }

  /** The value of a digit, or 16 if it is none. */
  function DigitOf(c: char): nat {
    if '0' <= c <= '9' then (c - '0') as nat
    else if 'a' <= c <= 'f' then (c - 'a') as nat + 10
    else if 'A' <= c <= 'F' then (c - 'A') as nat + 10
    else 16
  }

  lemma DigitBack(d: nat, upper: bool)
    requires d < 16
    ensures DigitOf(DigitChar(d, upper)) == d
  {
  }

  /** All characters are digits of the base. */
  ghost predicate Numeral(s: string, base: nat) {
    forall i :: 0 <= i < |s| ==> DigitOf(s[i]) < base
  }

  /** The value a numeral stands for, most significant digit first. */
  function Read(s: string, base: nat): nat {
    if s == [] then 0 else Read(s[..|s| - 1], base) * base + DigitOf(s[|s| - 1])
  }

  /** The digits of v, least significant first. */
  function Lsd(v: nat, base: nat, upper: bool): string
    requires 2 <= base <= 16
    decreases v
  {
    [DigitChar(v % base, upper)] + if v < base then [] else Lsd(v / base, base, upper)
  }

  function Reverse(s: string): (r: string)
    ensures |r| == |s|
  {
    if s == [] then [] else Reverse(s[1..]) + [s[0]]
  }

  lemma {:induction false} ReverseAt(s: string, i: nat)
    requires i < |s|
    ensures Reverse(s)[i] == s[|s| - 1 - i]
  {
    if i < |s| - 1 {
      ReverseAt(s[1..], i);
    }
  }

  lemma {:induction false} ReverseConcat(a: string, b: string)
    ensures Reverse(a + b) == Reverse(b) + Reverse(a)
  {
    if a == [] {
      assert a + b == b;
    } else {
      ReverseConcat(a[1..], b);
      assert (a + b)[1..] == a[1..] + b;
    }
  }

  function Repeat(c: char, n: nat): (s: string)
    ensures |s| == n && forall i :: 0 <= i < n ==> s[i] == c
  {
    seq(n, _ => c)
  }

  lemma {:induction false} ReverseRepeat(c: char, n: nat)
    ensures Reverse(Repeat(c, n)) == Repeat(c, n)
  {
    forall i | 0 <= i < n ensures Reverse(Repeat(c, n))[i] == c {
      ReverseAt(Repeat(c, n), i);
    }
  }

  lemma ReadSnoc(s: string, c: char, base: nat)
    ensures Read(s + [c], base) == Read(s, base) * base + DigitOf(c)
  {
    assert (s + [c])[..|s|] == s;
  }

  lemma ReverseCons(c: char, t: string)
    ensures Reverse([c] + t) == Reverse(t) + [c]
  {
    assert ([c] + t)[1..] == t;
  }

  lemma DivMod(v: nat, base: nat, q: nat, r: nat)
    requires base >= 2 && q == v / base && r == v % base
    ensures v == q * base + r && r < base && (v < base ==> q == 0) && (v >= base ==> q < v)
  {
  }

  lemma ReadCons(c: char, t: string, base: nat, q: nat)
    requires Read(Reverse(t), base) == q
    ensures Read(Reverse([c] + t), base) == q * base + DigitOf(c)
  {
    hide Read, Reverse, DigitOf;
    ReverseCons(c, t);
    ReadSnoc(Reverse(t), c, base);
  }

  function Quo(v: nat, base: nat): nat
    requires base >= 2
  {
    v / base
  }

  function Rem(v: nat, base: nat): (r: nat)
    requires base >= 2
    ensures r < base
  {
    v % base
  }

  lemma LsdStep(v: nat, base: nat, upper: bool, q: nat, r: nat)
    requires 2 <= base <= 16 && q == v / base && r == v % base
    ensures Lsd(v, base, upper) == [DigitChar(r, upper)] + if v < base then [] else Lsd(q, base, upper)
  {
  }

  /** Printing and reading back is the identity. */
  lemma {:induction false} ReadLsd(v: nat, base: nat, upper: bool)
    requires 2 <= base <= 16
    ensures Read(Reverse(Lsd(v, base, upper)), base) == v
    decreases v
  {
    hide DigitChar, DigitOf, Read, Reverse, Lsd;
    var q: nat, r: nat := v / base, v % base;
    DivMod(v, base, q, r);
    LsdStep(v, base, upper, q, r);
    DigitBack(r, upper);
    if v < base {
      ReadEmpty(base);
      ReadCons(DigitChar(r, upper), [], base, 0);
    } else {
      ReadLsd(q, base, upper);
      ReadCons(DigitChar(r, upper), Lsd(q, base, upper), base, q);
    }
  }

  lemma ReadEmpty(base: nat)
    ensures Read(Reverse([]), base) == 0
  {
  }

  lemma {:induction false} LsdNumeral(v: nat, base: nat, upper: bool)
    requires 2 <= base <= 16
    ensures Numeral(Lsd(v, base, upper), base) && Lsd(v, base, upper) != []
    decreases v
  {
    hide DigitChar, DigitOf;
    DigitBack(v % base, upper);
    if v >= base {
      LsdNumeral(v / base, base, upper);
    }
  }

  lemma {:induction false} LeadingZeros(n: nat, s: string, base: nat)
    ensures Read(Repeat('0', n) + s, base) == Read(s, base)
    decreases n, |s|
  {
    if s != [] {
      var t := s[..|s| - 1];
      LeadingZeros(n, t, base);
      assert Repeat('0', n) + s == (Repeat('0', n) + t) + [s[|s| - 1]];
      ReadSnoc(Repeat('0', n) + t, s[|s| - 1], base);
    } else if n > 0 {
      LeadingZeros(n - 1, s, base);
      assert Repeat('0', n) + s == (Repeat('0', n - 1) + s) + ['0'];
      ReadSnoc(Repeat('0', n - 1) + s, '0', base);
    }
  }

  // ---- the lowest digits

  function Power(base: nat, n: nat): (p: nat)
    ensures base > 0 ==> p > 0
  {
    if n == 0 then 1 else base * Power(base, n - 1)
  }

  lemma {:induction false} PowerGrows(base: nat, a: nat, b: nat)
    requires base >= 1 && a <= b
    ensures 1 <= Power(base, a) <= Power(base, b)
    decreases b
  {
    if a > 0 {
      PowerGrows(base, a - 1, b - 1);
      Scales(base, Power(base, a - 1), Power(base, b - 1));
    } else if b > 0 {
      PowerGrows(base, 0, b - 1);
      Scales(base, 1, Power(base, b - 1));
    }
  }

  lemma Scales(base: nat, a: nat, b: nat)
    requires 1 <= a <= b && base >= 1
    ensures 1 <= base * a <= base * b && b <= base * b
  {
  }

  lemma ScalesLeft(a: nat, b: nat, d: nat)
    requires a <= b
    ensures a * d <= b * d
  {
  }

  /** One digit more of the remainder. */
  lemma ModStep(v: nat, base: nat, q: nat, r: nat, m: nat)
    requires v == q * base + r && r < base && m > 0
    ensures v % (base * m) == (q % m) * base + r
  {
    var k, x := q / m, q % m;
    assert q == k * m + x;
    assert q * base == k * (base * m) + x * base;
    ScalesLeft(x + 1, m, base);
    assert (x + 1) * base == x * base + base;
    ModUnique(v, base * m, k, x * base + r);
  }

  /** The n lowest digits stand for the value modulo base^n. */
  lemma {:induction false} ReadLowest(v: nat, base: nat, upper: bool, n: nat)
    requires 2 <= base <= 16 && n <= |Lsd(v, base, upper)|
    ensures Read(Reverse(Lsd(v, base, upper)[..n]), base) == v % Power(base, n)
    decreases n
  {
    hide DigitChar, DigitOf, Read, Reverse, Lsd;
    var q: nat, r: nat := v / base, v % base;
    DivMod(v, base, q, r);
    LsdStep(v, base, upper, q, r);
    ReadEmpty(base);
    if n > 0 {
      DigitBack(r, upper);
      var t := if v < base then [] else Lsd(q, base, upper);
      assert Lsd(v, base, upper)[..n] == [DigitChar(r, upper)] + t[..n - 1];
      PowerGrows(base, 0, n - 1);
      ModStep(v, base, q, r, Power(base, n - 1));
      if v >= base {
        ReadLowest(q, base, upper, n - 1);
      } else {
        assert Power(base, 0) == 1;
      }
      ReadCons(DigitChar(r, upper), t[..n - 1], base, q % Power(base, n - 1));
    }
  }

  lemma PowerStep(base: nat, n: nat)
    ensures Power(base, 0) == 1 && Power(base, n + 1) == base * Power(base, n)
  {
  }

  lemma BelowNext(v: nat, base: nat, q: nat, r: nat, p: nat)
    requires v == q * base + r && r < base && q < p
    ensures v < base * p
  {
    ScalesLeft(q + 1, p, base);
    assert (q + 1) * base == q * base + base;
  }

  /** A numeral of n digits is below base^n. */
  lemma {:induction false} LsdBound(v: nat, base: nat, upper: bool)
    requires 2 <= base <= 16
    ensures v < Power(base, |Lsd(v, base, upper)|)
    decreases v
  {
    hide DigitChar, Lsd, Power;
    var q: nat, r: nat := v / base, v % base;
    DivMod(v, base, q, r);
    LsdStep(v, base, upper, q, r);
    var n := if v < base then 0 else |Lsd(q, base, upper)|;
    PowerStep(base, n);
    if v >= base {
      LsdBound(q, base, upper);
    }
    BelowNext(v, base, q, r, Power(base, n));
  }

  /** In base 8 or more, v < 8^n has at most n digits. */
  lemma {:induction false} FewDigits(v: nat, base: nat, upper: bool, n: nat)
    requires 8 <= base <= 16 && n > 0 && v < Power(8, n)
    ensures |Lsd(v, base, upper)| <= n
    decreases n
  {
    if v >= base {
      assert v / base < Power(8, n - 1) by {
        Quotient(v, base, Power(8, n - 1));
      }
      if n > 1 {
        FewDigits(v / base, base, upper, n - 1);
      }
    }
  }

  lemma Quotient(v: nat, base: nat, m: nat)
    requires base >= 8 && v < 8 * m
    ensures v / base < m
  {
    var q := v / base;
    assert v == q * base + v % base;
    if q >= m {
      Times(m, q, base);
    }
  }

  lemma Times(m: nat, q: nat, base: nat)
    requires m <= q && base >= 8
    ensures 8 * m <= q * base
  {
  }
}
