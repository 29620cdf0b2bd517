/** Integer formatting, kernel/src/lib/printf.c; what reaches the output function is a string. */
module Printf {
  import opened Words
  import opened Digits
  import opened TextLaws

  const U32_RANGE: nat := 0x1_0000_0000

  predicate IsDecimal(c: char) { '0' <= c <= '9' }

  /** _atoi: the longest run of decimal digits, modulo 2^32. */
  method Atoi(s: string, start: nat) returns (v: nat, end: nat)
    requires start <= |s|
    ensures start <= end <= |s| && (forall k :: start <= k < end ==> IsDecimal(s[k]))
      && (end < |s| ==> !IsDecimal(s[end]))
    ensures v == Mod32(Read(s[start..end], 10))
  {
    hide Read;
    v, end := 0, start;
    NoDigits();
    assert s[start..end] == [];
    while end < |s| && IsDecimal(s[end])
      invariant start <= end <= |s|
      invariant forall k :: start <= k < end ==> IsDecimal(s[k])
      invariant v == Mod32(Read(s[start..end], 10))
    {
      AtoiStep(s[start..end], s[end], v);
      assert s[start..end + 1] == s[start..end] + [s[end]];
      v := Mod32(v * 10 + (s[end] - '0') as nat);
      end := end + 1;
    }
  }

  /** Unsigned 32-bit arithmetic. */
  function Mod32(x: nat): nat { x % U32_RANGE }

  lemma NoDigits()
    ensures Mod32(Read([], 10)) == 0
  {
  }

  lemma AtoiStep(s: string, c: char, v: nat)
    requires IsDecimal(c) && v == Mod32(Read(s, 10))
    ensures Mod32(Read(s + [c], 10)) == Mod32(v * 10 + (c - '0') as nat)
  {
    hide Read, Mod32;
    ReadSnoc(s, c, 10);
    Mod32Step(Read(s, 10), v, (c - '0') as nat);
  }

  lemma Mod32Step(r: nat, v: nat, d: nat)
    requires v == Mod32(r)
    ensures Mod32(r * 10 + d) == Mod32(v * 10 + d)
  {
    var q := r / U32_RANGE;
    assert r * 10 + d == v * 10 + d + (q * 10) * U32_RANGE;
  }

  // ---- what the formatter should put out

  function Minus(a: nat, b: nat): nat { if a < b then 0 else a - b }

  function Min(a: nat, b: nat): nat { if a < b then a else b }

  /** Line 223: a zero-padded field leaves room for its sign. */
  function Field(width: nat, negative: bool, f: Flags): nat {
    if !f.left && width > 0 && f.zeropad && (negative || f.plus || f.space) then width - 1 else width
  }

  /** How far leading zeros reach, out of len digits. */
  function Fill(len: nat, prec: nat, field: nat, f: Flags): nat {
    if f.left then len
    else
      var a := if len < prec then Min(prec, BUFFER) else len;
      if f.zeropad && a < field then Min(field, BUFFER) else a
  }

  function Sign(negative: bool, f: Flags): string {
    if negative then "-" else if f.plus then "+" else if f.space then " " else ""
  }

  function Zeros(digits: string, n: nat): string { digits + Repeat('0', Minus(n, |digits|)) }

  /** Lines 240-247: how many of n characters the alternative form takes back to make room for its prefix. */
  function Cut(n: nat, base: nat, prec: nat, field: nat, f: Flags): (c: nat)
    ensures c <= n
  {
    if f.hash && !f.precision && n > 0 && (n == prec || n == field) then (if n > 1 && base == 16 then 2 else 1) else 0
  }

  /** The number of digit places that are left. */
  function Places(len: nat, base: nat, prec: nat, field: nat, f: Flags): nat {
    var n := Fill(len, prec, field, f);
    n - Cut(n, base, prec, field, f)
  }

  function Mark(base: nat, f: Flags): string {
    if !f.hash then "" else if base == 16 then (if f.upper then "X" else "x") else if base == 2 then "b" else ""
  }

  function Nought(f: Flags): string { if f.hash then "0" else "" }

  /** A character is written only if the buffer has room left. */
  function Clip(s: string, t: string): string { if |s| < BUFFER then s + t else s }

  function Body(digits: string, negative: bool, base: nat, prec: nat, field: nat, f: Flags): string
    requires |digits| <= BUFFER
  {
    var kept := Zeros(digits, Fill(|digits|, prec, field, f))[..Places(|digits|, base, prec, field, f)];
    Clip(Clip(Clip(kept, Mark(base, f)), Nought(f)), Sign(negative, f))
  }

  function Padded(body: string, field: nat, f: Flags): string {
    (if !f.left && !f.zeropad then Repeat(' ', Minus(field, |body|)) else "")
    + Reverse(body)
    + (if f.left then Repeat(' ', Minus(field, |body|)) else "")
  }

  function Layout(digits: string, negative: bool, base: nat, prec: nat, width: nat, f: Flags): string
    requires |digits| <= BUFFER
  {
    var field := Field(width, negative, f);
    Padded(Body(digits, negative, base, prec, field, f), field, f)
  }

  // ---- the code

  /** _out_rev. */
  method OutRev(buf: array<char>, len: nat, width: nat, f: Flags) returns (out: string)
    requires len <= buf.Length
    ensures out == Padded(buf[..len], width, f)
    ensures
      var pad := if width > len then width - len else 0;
      && |out| == len + (if f.left || !f.zeropad then pad else 0)
      && out == Repeat(' ', if !f.left && !f.zeropad then pad else 0) + Reverse(buf[..len])
                + Repeat(' ', if f.left then pad else 0)
  {
    out := "";
    if !f.left && !f.zeropad {
      var i := len;
      while i < width
        invariant i >= len && i <= (if len < width then width else len) && out == Repeat(' ', i - len)
      {
        out := out + " ";
        i := i + 1;
      }
    }
    ghost var pad, text := out, Reverse(buf[..len]);
    assert pad == if !f.left && !f.zeropad then Repeat(' ', Minus(width, len)) else "";
    var rest := len;
    while rest > 0
      invariant 0 <= rest <= len
      invariant out + Reverse(buf[..rest]) == pad + text
    {
      rest := rest - 1;
      ReverseConcat(buf[..rest], [buf[rest]]);
      assert buf[..rest + 1] == buf[..rest] + [buf[rest]];
      assert Reverse([buf[rest]]) == [buf[rest]];
      out := out + [buf[rest]];
    }
    assert out == pad + text;
    if f.left {
      while |out| < width
        invariant len <= |out| <= (if len < width then width else len) && out == pad + text + Repeat(' ', |out| - len)
      {
        out := out + " ";
      }
    } else {
      assert out == pad + text + "";
    }
    assert Repeat(' ', 0) == "";
  }

  /** Appends zeros up to the given length, but not past the end of the buffer. */
  method FillZeros(buf: array<char>, len: nat, upTo: nat) returns (n: nat)
    requires buf.Length == BUFFER && len <= BUFFER
    modifies buf
    ensures n == (if len < upTo then Min(upTo, BUFFER) else len) && n <= BUFFER
    ensures buf[..n] == old(buf[..len]) + Repeat('0', n - len)
  {
    n := len;
    while n < upTo && n < BUFFER
      invariant len <= n <= BUFFER && (len < upTo ==> n <= upTo) && (len >= upTo ==> n == len)
      invariant buf[..n] == old(buf[..len]) + Repeat('0', n - len)
    {
      buf[n] := '0';
      assert buf[..n + 1] == buf[..n] + ['0'];
      n := n + 1;
    }
  }

  /** Lines 238-262: the prefix of the alternative form. */
  method AddPrefix(buf: array<char>, len: nat, base: nat, prec: nat, width: nat, f: Flags) returns (n: nat)
    requires buf.Length == BUFFER && len <= BUFFER
    modifies buf
    ensures n <= BUFFER
    ensures buf[..n] == Clip(Clip(old(buf[..len])[..len - Cut(len, base, prec, width, f)], Mark(base, f)), Nought(f))
  {
    n := len;
    if f.hash {
      if !f.precision && n > 0 && (n == prec || n == width) {
        n := n - 1;
        if n > 0 && base == 16 {
          n := n - 1;
        }
      }
      ghost var kept := buf[..n];
      assert kept == old(buf[..len])[..len - Cut(len, base, prec, width, f)];
      hide Cut, Mark;
      n := AddMark(buf, n, base, f);
      ghost var marked := buf[..n];
      if n < BUFFER {
        buf[n] := '0';
        n := n + 1;
        assert buf[..n] == marked + "0";
      }
    }
  }

  method AddMark(buf: array<char>, len: nat, base: nat, f: Flags) returns (n: nat)
    requires buf.Length == BUFFER && len <= BUFFER && f.hash
    modifies buf
    ensures n <= BUFFER && buf[..n] == Clip(old(buf[..len]), Mark(base, f))
  {
    n := len;
    if base == 16 && !f.upper && n < BUFFER {
      buf[n] := 'x';
      n := n + 1;
    } else if base == 16 && f.upper && n < BUFFER {
      buf[n] := 'X';
      n := n + 1;
    } else if base == 2 && n < BUFFER {
      buf[n] := 'b';
      n := n + 1;
    }
  }

  /** Lines 264-276. */
  method AddSign(buf: array<char>, len: nat, negative: bool, f: Flags) returns (n: nat)
    requires buf.Length == BUFFER && len <= BUFFER
    modifies buf
    ensures n <= BUFFER && buf[..n] == Clip(old(buf[..len]), Sign(negative, f))
  {
    n := len;
    if n < BUFFER {
      if negative {
        buf[n] := '-';
        n := n + 1;
      } else if f.plus {
        buf[n] := '+';
        n := n + 1;
      } else if f.space {
        buf[n] := ' ';
        n := n + 1;
      }
    }
  }

  lemma MoreZeros(s: string, a: nat, b: nat)
    ensures s + Repeat('0', a) + Repeat('0', b) == s + Repeat('0', a + b)
  {
  }

  /** Lines 221-235. */
  method LeadZeros(buf: array<char>, len: nat, negative: bool, prec: nat, width: nat, f: Flags)
      returns (n: nat, field: nat)
    requires buf.Length == BUFFER && len <= BUFFER
    modifies buf
    ensures field == Field(width, negative, f) && len <= n == Fill(len, prec, field, f) <= BUFFER
    ensures buf[..n] == old(buf[..len]) + Repeat('0', n - len)
  {
    ghost var digits := buf[..len];
    n, field := len, width;
    if !f.left {
      if field > 0 && f.zeropad && (negative || f.plus || f.space) {
        field := field - 1;
      }
      n := FillZeros(buf, n, prec);
      if f.zeropad {
        ghost var n1 := n;
        n := FillZeros(buf, n, field);
        MoreZeros(digits, n1 - len, n - n1);
      }
    }
  }

  /** _ntoa_format. */
  method Format(buf: array<char>, len: nat, negative: bool, base: nat, prec: nat, width: nat, f: Flags)
      returns (out: string, ghost t: Text)
    requires buf.Length == BUFFER && len <= BUFFER
    modifies buf
    ensures out == Layout(old(buf[..len]), negative, base, prec, width, f)
    ensures Shaped(t, len, negative, base, prec, width, f) && out == Write(t, Reverse(old(buf[..len])))
  {
    hide Layout, Body, Shaped, Write, Reverse, Fill, Field, Padded, Sign, Repeat, Clip, Mark, Nought, Cut;
    ghost var digits := buf[..len];
    var n, field := LeadZeros(buf, len, negative, prec, width, f);
    n := AddPrefix(buf, n, base, prec, field, f);
    n := AddSign(buf, n, negative, f);
    out := OutRev(buf, n, field, f);
    t := Laid(digits, negative, base, prec, width, f);
    LayoutIs(digits, negative, base, prec, width, f);
  }

  lemma LayoutIs(digits: string, negative: bool, base: nat, prec: nat, width: nat, f: Flags)
    requires |digits| <= BUFFER
    ensures
      var field := Field(width, negative, f);
      var n := Fill(|digits|, prec, field, f);
      var kept := Zeros(digits, n)[..n - Cut(n, base, prec, field, f)];
      Layout(digits, negative, base, prec, width, f)
      == Padded(Clip(Clip(Clip(kept, Mark(base, f)), Nought(f)), Sign(negative, f)), field, f)
  {
  }

  /** Lines 288-292: no prefix for zero. */
  function Effective(value: nat, f: Flags): Flags { if value == 0 then f.(hash := false) else f }

  /** The digits that reach the buffer: none for a zero with a precision, and at most 32. */
  function Written(value: nat, base: nat, f: Flags): (s: string)
    requires 2 <= base <= 16
    ensures |s| <= BUFFER
  {
    if value == 0 && f.precision then ""
    else
      var s := Lsd(value, base, f.upper);
      s[..Min(|s|, BUFFER)]
  }

  /** _ntoa_long and _ntoa_long_long: both take 64-bit values. */
  method Ntoa(value: u64, negative: bool, base: nat, prec: nat, width: nat, flags: Flags)
      returns (out: string, ghost t: Text, ghost digits: string)
    requires 2 <= base <= 16
    ensures var f := Effective(value, flags); out == Layout(Written(value, base, f), negative, base, prec, width, f)
    ensures DigitsRight(digits, value, base, flags)
    ensures
      var f := if value == 0 then flags.(hash := false) else flags;
      Shaped(t, |digits|, negative, base, prec, width, f) && out == Write(t, digits)
  {
    hide Layout, Shaped, Write, DigitsRight;
    var buf := new char[BUFFER];
    var len := 0;
    var f := Effective(value, flags);
    if !f.precision || value != 0 {
      len := PutDigits(buf, value, base, f.upper);
    }
    assert buf[..len] == Written(value, base, f);
    digits := Reverse(buf[..len]);
    WrittenRight(value, base, f);
    SameDigits(digits, value, base, f, flags);
    out, t := Format(buf, len, negative, base, prec, width, f);
  }

  /** The hash flag has no part in the digits. */
  lemma SameDigits(digits: string, value: nat, base: nat, f: Flags, flags: Flags)
    requires base >= 2 && DigitsRight(digits, value, base, f) && f == Effective(value, flags)
    ensures DigitsRight(digits, value, base, flags)
  {
  }

  lemma DigitCased(d: nat, upper: bool)
    requires d < 16
    ensures var c := DigitChar(d, upper); ('a' <= c <= 'f' ==> !upper) && ('A' <= c <= 'F' ==> upper)
  {
  }

  lemma {:induction false} LsdCased(v: nat, base: nat, upper: bool)
    requires 2 <= base <= 16
    ensures Cased(Lsd(v, base, upper), upper)
    decreases v
  {
    hide Lsd, DigitChar;
    var q: nat, r: nat := v / base, v % base;
    DivMod(v, base, q, r);
    LsdStep(v, base, upper, q, r);
    DigitCased(r, upper);
    if v >= base {
      LsdCased(q, base, upper);
    }
  }

  /** The most significant digit of a positive number is not zero. */
  lemma {:induction false} LsdTop(v: nat, base: nat, upper: bool)
    requires 2 <= base <= 16 && v > 0
    ensures var s := Lsd(v, base, upper); s != [] && s[|s| - 1] != '0'
    decreases v
  {
    if v >= base {
      DivMod(v, base, v / base, v % base);
      LsdTop(v / base, base, upper);
    }
  }

  lemma WrittenRight(value: nat, base: nat, f: Flags)
    requires 2 <= base <= 16
    ensures DigitsRight(Reverse(Written(value, base, f)), value, base, f)
  {
    hide Lsd, Reverse, Read, Numeral, Cased, Power, Written;
    WrittenForm(value, base, f);
    if value != 0 || !f.precision {
      WrittenReads(value, base, f);
    }
  }

  /** Digits of the base and of the case asked for, the first of them not zero. */
  lemma WrittenForm(value: nat, base: nat, f: Flags)
    requires 2 <= base <= 16
    ensures
      var d := Reverse(Written(value, base, f));
      if value == 0 && f.precision then d == ""
      else
        && 0 < |d| <= BUFFER && Numeral(d, base) && Cased(d, f.upper)
        && (|d| < BUFFER && value > 0 ==> d[0] != '0') && (value == 0 ==> d == "0")
  {
    if value != 0 || !f.precision {
      var s := Lsd(value, base, f.upper);
      var w := Written(value, base, f);
      hide Lsd, Reverse, Numeral, Cased, Written;
      FirstDigits(s, w, base, f.upper, value);
      NumeralBack(0, w, base);
      assert Repeat('0', 0) + Reverse(w) == Reverse(w);
      CasedBack(w, f.upper);
      if value > 0 {
        ReverseAt(w, 0);
      } else {
        ZeroDigit(base, f.upper);
      }
    }
  }

  lemma FirstDigits(s: string, w: string, base: nat, upper: bool, value: nat)
    requires 2 <= base <= 16 && s == Lsd(value, base, upper) && w == s[..Min(|s|, BUFFER)]
    ensures 0 < |w| <= BUFFER && Numeral(w, base) && Cased(w, upper)
    ensures |w| < BUFFER && value > 0 ==> w[|w| - 1] != '0'
    ensures value == 0 ==> w == "0"
  {
    hide Lsd, DigitOf;
    LsdNumeral(value, base, upper);
    LsdCased(value, base, upper);
    if value > 0 {
      LsdTop(value, base, upper);
    } else {
      ZeroDigit(base, upper);
    }
  }

  /** All the digits stand for the value, the 32 lowest for the value modulo base^32. */
  lemma WrittenReads(value: nat, base: nat, f: Flags)
    requires 2 <= base <= 16 && (value != 0 || !f.precision)
    ensures
      var d := Reverse(Written(value, base, f));
      Read(d, base) == value % Power(base, BUFFER) && (|d| < BUFFER ==> Read(d, base) == value)
  {
    var s := Lsd(value, base, f.upper);
    hide Lsd, Reverse, Read, Power;
    if |s| <= BUFFER {
      assert s[..|s|] == s;
      ReadLsd(value, base, f.upper);
      LsdBound(value, base, f.upper);
      PowerGrows(base, |s|, BUFFER);
      SmallMod(value, Power(base, BUFFER));
    } else {
      ReadLowest(value, base, f.upper, BUFFER);
    }
  }

  lemma CasedBack(s: string, upper: bool)
    requires Cased(s, upper)
    ensures Cased(Reverse(s), upper)
  {
    forall i | 0 <= i < |s|
      ensures ('a' <= Reverse(s)[i] <= 'f' ==> !upper) && ('A' <= Reverse(s)[i] <= 'F' ==> upper)
    {
      ReverseAt(s, i);
    }
  }

  lemma ZeroDigit(base: nat, upper: bool)
    requires 2 <= base <= 16
    ensures Lsd(0, base, upper) == "0" && Reverse("0") == "0"
  {
  }

  /** The digit loop: it stops at the end of the buffer. */
  method PutDigits(buf: array<char>, value: u64, base: nat, upper: bool) returns (len: nat)
    requires buf.Length == BUFFER && 2 <= base <= 16
    modifies buf
    ensures var s := Lsd(value, base, upper); len == Min(|s|, BUFFER) && buf[..len] == s[..len]
    ensures Cased(buf[..len], upper) && Read(Reverse(buf[..len]), base) == value % Power(base, len)
  {
    hide Lsd, DigitChar, Quo, Rem, Remaining;
    var v: nat := value;
    NextDigit("", v, base, upper);
    buf[0] := DigitChar(Rem(v, base), upper);
    v := Quo(v, base);
    len := 1;
    assert buf[..1] == [] + [buf[0]];
    while v != 0 && len < BUFFER
      invariant 1 <= len <= BUFFER
      invariant buf[..len] + Remaining(v, base, upper) == Lsd(value, base, upper)
      decreases BUFFER - len
    {
      NextDigit(buf[..len], v, base, upper);
      buf[len] := DigitChar(Rem(v, base), upper);
      assert buf[..len + 1] == buf[..len] + [buf[len]];
      v := Quo(v, base);
      len := len + 1;
    }
    RemainingSome(v, base, upper);
    assert (buf[..len] + Remaining(v, base, upper))[..len] == buf[..len];
    LsdCased(value, base, upper);
    ReadLowest(value, base, upper, len);
  }

  /** The digits still to be written once the value has come down to v. */
  function Remaining(v: nat, base: nat, upper: bool): string
    requires 2 <= base <= 16
  {
    if v == 0 then [] else Lsd(v, base, upper)
  }

  lemma RemainingSome(v: nat, base: nat, upper: bool)
    requires 2 <= base <= 16
    ensures |Remaining(v, base, upper)| == 0 <==> v == 0
  {
  }

  lemma NextDigit(done: string, v: nat, base: nat, upper: bool)
    requires 2 <= base <= 16
    ensures v != 0 ==> Remaining(v, base, upper) == Lsd(v, base, upper)
    ensures (done + [DigitChar(Rem(v, base), upper)]) + Remaining(Quo(v, base), base, upper)
         == done + Lsd(v, base, upper)
  {
    hide Lsd, DigitChar;
    var q: nat, r: nat := v / base, v % base;
    DivMod(v, base, q, r);
    LsdStep(v, base, upper, q, r);
    assert Quo(v, base) == q && Rem(v, base) == r;
    hide Quo, Rem;
    NextOf(done, DigitChar(r, upper), if v < base then [] else Lsd(q, base, upper));
  }

  lemma NextOf(done: string, c: char, rest: string)
    ensures (done + [c]) + rest == done + ([c] + rest)
  {
  }

  lemma AtMost22(value: u64, base: nat, upper: bool)
    requires 8 <= base <= 16
    ensures |Lsd(value, base, upper)| <= 22
  {
    assert Power(8, 2) == 64;
    assert Power(8, 4) == 4096;
    assert Power(8, 6) == 262144;
    assert Power(8, 8) == 16777216;
    assert Power(8, 10) == 1073741824;
    assert Power(8, 12) == 68719476736;
    assert Power(8, 14) == 4398046511104;
    assert Power(8, 16) == 281474976710656;
    assert Power(8, 18) == 18014398509481984;
    assert Power(8, 20) == 1152921504606846976;
    assert Power(8, 22) == 73786976294838206464;
    FewDigits(value, base, upper, 22);
  }

  // ---- reading the output back

  function SkipSpaces(s: string): string {
    if s != [] && s[0] == ' ' then SkipSpaces(s[1..]) else s
  }

  function TakeDigits(s: string, base: nat): string {
    if s != [] && DigitOf(s[0]) < base then [s[0]] + TakeDigits(s[1..], base) else []
  }

  /** Without the mark of the base. */
  function Unmark(s: string, base: nat): string {
    if |s| < 2 || s[0] != '0' then s
    else if (base == 16 && (s[1] == 'x' || s[1] == 'X')) || (base == 2 && s[1] == 'b') then s[2..]
    else s
  }

  /** What a numeral, marked or not, at the start of s stands for. */
  function Value(s: string, base: nat): nat { Read(TakeDigits(Unmark(s, base), base), base) }

  /** Spaces, an optional sign, then as many digits as there are: whether negative, and the value. */
  function Parse(s: string, base: nat): (bool, nat) {
    var t := SkipSpaces(s);
    if t != [] && (t[0] == '-' || t[0] == '+') then (t[0] == '-', Value(t[1..], base)) else (false, Value(t, base))
  }

  lemma {:induction false} SkipsSpaces(n: nat, s: string)
    ensures SkipSpaces(Repeat(' ', n) + s) == SkipSpaces(s)
  {
    if n == 0 {
      assert Repeat(' ', n) + s == s;
    } else {
      SkipsSpaces(n - 1, s);
      assert (Repeat(' ', n) + s)[1..] == Repeat(' ', n - 1) + s;
    }
  }

  lemma {:induction false} TakesDigits(a: string, b: string, base: nat)
    requires Numeral(a, base) && (b == [] || DigitOf(b[0]) >= base)
    ensures TakeDigits(a + b, base) == a
  {
    if a == [] {
      assert a + b == b;
    } else {
      TakesDigits(a[1..], b, base);
      assert (a + b)[1..] == a[1..] + b;
    }
  }

  /** What may stand between the sign and the digits. */
  predicate Prefix(s: string, base: nat) {
    s == "" || s == "0" || (base == 16 && (s == "0x" || s == "0X")) || (base == 2 && s == "0b")
  }

  /** Digits and spaces do not look like a mark. */
  lemma Unmarked(s: string, base: nat)
    requires forall k :: 1 <= k < |s| ==> DigitOf(s[k]) < base || s[k] == ' '
    ensures Unmark(s, base) == s
  {
  }

  lemma ValueBack(prefix: string, numeral: string, after: nat, base: nat)
    requires Numeral(numeral, base) && Prefix(prefix, base) && 2 <= base <= 16
    ensures Value(prefix + numeral + Repeat(' ', after), base) == Read(numeral, base)
  {
    hide Read, TakeDigits;
    var pad := Repeat(' ', after);
    var s := prefix + numeral + pad;
    if |prefix| == 2 {
      assert Unmark(s, base) == s[2..] == numeral + pad;
      TakesDigits(numeral, pad, base);
    } else {
      assert Numeral(prefix + numeral, base);
      Unmarked(s, base);
      TakesDigits(prefix + numeral, pad, base);
      if prefix == "0" {
        assert Repeat('0', 1) == "0";
        LeadingZeros(1, numeral, base);
      } else {
        assert prefix + numeral == numeral;
      }
    }
  }

  lemma NoSpaces(s: string)
    requires s != [] && s[0] != ' '
    ensures SkipSpaces(s) == s && SkipSpaces([' '] + s) == s
  {
    assert ([' '] + s)[1..] == s;
  }

  /** A sign in front of a digit. */
  lemma SignBack(sign: string, text: string, base: nat)
    requires text != [] && text[0] != ' ' && text[0] != '-' && text[0] != '+' && sign in {"", "-", "+", " "}
    ensures
      var t := SkipSpaces(sign + text);
      (if t != [] && (t[0] == '-' || t[0] == '+') then (t[0] == '-', Value(t[1..], base)) else (false, Value(t, base)))
      == (sign == "-", Value(text, base))
  {
    hide Value, SkipSpaces;
    NoSpaces(text);
    NoSpaces(['-'] + text);
    NoSpaces(['+'] + text);
    if sign == "" {
      assert sign + text == text;
    } else {
      assert (sign + text)[1..] == text;
    }
  }

  lemma Regroup(a: string, b: string, c: string, d: string)
    ensures a + (b + c) + d == a + (b + (c + d))
  {
  }

  /** Spaces, sign, prefix, numeral, spaces. */
  lemma ParsesBack(before: nat, sign: string, prefix: string, numeral: string, after: nat, base: nat)
    requires Numeral(numeral, base) && prefix + numeral != "" && 2 <= base <= 16 && Prefix(prefix, base)
    requires sign in {"", "-", "+", " "}
    ensures Parse(Repeat(' ', before) + (sign + (prefix + numeral)) + Repeat(' ', after), base)
         == (sign == "-", Read(numeral, base))
  {
    var text := prefix + numeral + Repeat(' ', after);
    assert text[0] == (prefix + numeral)[0] && (text[0] == '0' || DigitOf(text[0]) < 16);
    ValueBack(prefix, numeral, after, base);
    hide Value, Read, SkipSpaces, Numeral, Repeat, DigitOf, Prefix;
    Regroup(Repeat(' ', before), sign, prefix + numeral, Repeat(' ', after));
    SkipsSpaces(before, sign + text);
    SignBack(sign, text, base);
  }

  /** There is room for the sign behind the digit places and the prefix. */
  predicate SignRoom(places: nat, base: nat, f: Flags) { places + |Mark(base, f)| + |Nought(f)| < BUFFER }

  /** The mark of the base would take the last place, and the zero that belongs to it none. */
  predicate Stuck(places: nat, base: nat, f: Flags) { Mark(base, f) != "" && places == BUFFER - 1 }

  lemma ReverseFour(kept: string, mark: string, nought: string, sign: string)
    requires |mark| <= 1 && |nought| <= 1 && |sign| <= 1
    ensures Reverse(kept + mark + nought + sign) == sign + (nought + mark + Reverse(kept))
  {
    hide Reverse;
    ReverseConcat(kept + mark + nought, sign);
    ReverseConcat(kept + mark, nought);
    ReverseConcat(kept, mark);
    ReverseShort(mark);
    ReverseShort(nought);
    ReverseShort(sign);
  }

  lemma ReverseShort(s: string)
    requires |s| <= 1
    ensures Reverse(s) == s
  {
  }

  /** The characters of the number, in reading order. */
  lemma BodyParts(digits: string, negative: bool, base: nat, prec: nat, field: nat, f: Flags)
      returns (sign: string, prefix: string, kept: string)
    requires |digits| <= BUFFER
    ensures
      var n := Places(|digits|, base, prec, field, f);
      && Reverse(Body(digits, negative, base, prec, field, f)) == sign + (prefix + Reverse(kept))
      && sign == (if SignRoom(n, base, f) then Sign(negative, f) else "")
      && kept == Zeros(digits, Fill(|digits|, prec, field, f))[..n] && |kept| == n
      && prefix == (if n == BUFFER then "" else if Stuck(n, base, f) then Mark(base, f) else Nought(f) + Mark(base, f))
  {
    hide Reverse, Cut, Sign;
    var n := Places(|digits|, base, prec, field, f);
    kept := Zeros(digits, Fill(|digits|, prec, field, f))[..n];
    hide Fill, Zeros;
    var mark := if n < BUFFER then Mark(base, f) else "";
    var nought := if n + |mark| < BUFFER then Nought(f) else "";
    sign := if SignRoom(n, base, f) then Sign(negative, f) else "";
    prefix := nought + mark;
    SignShort(negative, f);
    ReverseFour(kept, mark, nought, sign);
    assert Body(digits, negative, base, prec, field, f) == kept + mark + nought + sign;
  }

  lemma SignShort(negative: bool, f: Flags)
    ensures |Sign(negative, f)| <= 1 && Sign(negative, f) in {"", "-", "+", " "}
      && (Sign(negative, f) == "-" <==> negative)
  {
  }

  lemma PadParts(body: string, field: nat, f: Flags) returns (before: nat, after: nat)
    ensures Padded(body, field, f) == Repeat(' ', before) + Reverse(body) + Repeat(' ', after)
    ensures before == (if !f.left && !f.zeropad then Minus(field, |body|) else 0)
    ensures after == if f.left then Minus(field, |body|) else 0
  {
    hide Reverse;
    before := if !f.left && !f.zeropad then Minus(field, |body|) else 0;
    after := if f.left then Minus(field, |body|) else 0;
    assert before == 0 ==> Repeat(' ', before) == "";
    assert after == 0 ==> Repeat(' ', after) == "";
  }

  /** Reversed, what comes first comes last. */
  lemma ReversePart(a: string, b: string)
    ensures Reverse(a) == Reverse(a + b)[|b|..]
  {
    hide Reverse;
    ReverseConcat(a, b);
  }

  /** The layout is the text the laws ask for. */
  lemma Laid(digits: string, negative: bool, base: nat, prec: nat, width: nat, f: Flags) returns (t: Text)
    requires |digits| <= BUFFER
    ensures Shaped(t, |digits|, negative, base, prec, width, f)
    ensures Layout(digits, negative, base, prec, width, f) == Write(t, Reverse(digits))
  {
    hide Field, Fill, Cut, Body, Padded, Reverse, Repeat, Zeros, SignRoom, Stuck, Mark, Nought, Sign, Shaped, Write;
    var field, len := Field(width, negative, f), |digits|;
    var n := Fill(len, prec, field, f);
    FillBounds(len, prec, field, f);
    var sign, prefix, kept := BodyParts(digits, negative, base, prec, field, f);
    var body := Body(digits, negative, base, prec, field, f);
    var before, after := PadParts(body, field, f);
    t := Text(before, sign, prefix, n - len, n - |kept|, after);
    NumberIs(digits, n, kept);
    Assemble(t, Reverse(digits), Reverse(kept), Reverse(body));
    LaidLaws(t, len, negative, base, prec, width, f);
  }

  lemma Assemble(t: Text, digits: string, number: string, body: string)
    requires t.cut <= t.zeros + |digits| && number == (Repeat('0', t.zeros) + digits)[t.cut..]
    requires body == t.sign + (t.prefix + number)
    ensures Write(t, digits) == Repeat(' ', t.before) + body + Repeat(' ', t.after)
    ensures |body| == |t.sign| + |t.prefix| + |number|
  {
  }

  /** The zeros and digits that are kept, in reading order. */
  lemma NumberIs(digits: string, n: nat, kept: string)
    requires |digits| <= n && |kept| <= n && kept == Zeros(digits, n)[..|kept|]
    ensures Reverse(kept) == (Repeat('0', n - |digits|) + Reverse(digits))[n - |kept|..]
  {
    var s := Zeros(digits, n);
    assert kept + s[|kept|..] == s;
    ReversePart(kept, s[|kept|..]);
    ReverseConcat(digits, Repeat('0', n - |digits|));
    ReverseRepeat('0', n - |digits|);
  }

  lemma LaidLaws(t: Text, len: nat, negative: bool, base: nat, prec: nat, width: nat, f: Flags)
    requires len <= BUFFER
    requires
      var field := Field(width, negative, f);
      var n := Fill(len, prec, field, f);
      var m := Places(len, base, prec, field, f);
      var core := |t.sign| + |t.prefix| + m;
      && t.zeros + len == n && t.cut == Cut(n, base, prec, field, f)
      && t.sign == (if SignRoom(m, base, f) then Sign(negative, f) else "")
      && t.prefix == (if m == BUFFER then "" else if Stuck(m, base, f) then Mark(base, f)
        else Nought(f) + Mark(base, f))
      && t.before == (if !f.left && !f.zeropad then Minus(field, core) else 0)
      && t.after == if f.left then Minus(field, core) else 0
    ensures Shaped(t, len, negative, base, prec, width, f)
  {
  }

  /** Whatever is filled up or cut, n digit places hold the value modulo base^n. */
  lemma KeptReads(value: nat, base: nat, f: Flags, n: nat, m: nat)
    requires 2 <= base <= 16 && (value != 0 || !f.precision) && n <= m <= BUFFER && |Written(value, base, f)| <= m
    ensures
      var kept := Zeros(Written(value, base, f), m)[..n];
      Numeral(Reverse(kept), base) && Read(Reverse(kept), base) == value % Power(base, n)
  {
    hide Lsd, Reverse, Read, Numeral;
    var s, digits := Lsd(value, base, f.upper), Written(value, base, f);
    LsdNumeral(value, base, f.upper);
    var kept := Zeros(digits, m)[..n];
    if n <= |digits| {
      assert kept == s[..n];
      ReadLowest(value, base, f.upper, n);
      NumeralPart(s, n, base);
      NumeralBack(0, s[..n], base);
      assert Repeat('0', 0) + Reverse(s[..n]) == Reverse(s[..n]);
    } else {
      assert digits == s && kept == s + Repeat('0', n - |s|);
      ReverseConcat(s, Repeat('0', n - |s|));
      ReverseRepeat('0', n - |s|);
      LeadingZeros(n - |s|, Reverse(s), base);
      NumeralBack(n - |s|, s, base);
      ReadLsd(value, base, f.upper);
      LsdBound(value, base, f.upper);
      PowerGrows(base, |s|, n);
      SmallMod(value, Power(base, n));
    }
  }

  lemma SmallMod(v: nat, m: nat)
    requires m > 0
    ensures v % m == v <==> v < m
  {
  }

  lemma NumeralPart(s: string, n: nat, base: nat)
    requires Numeral(s, base) && n <= |s|
    ensures Numeral(s[..n], base)
  {
  }

  lemma NumeralBack(n: nat, digits: string, base: nat)
    requires Numeral(digits, base) && base > 0
    ensures Numeral(Repeat('0', n) + Reverse(digits), base)
  {
    var s := Repeat('0', n) + Reverse(digits);
    forall i | 0 <= i < |s| ensures DigitOf(s[i]) < base {
      if i >= n {
        ReverseAt(digits, i - n);
      }
    }
  }

  /** The parts of the output, left to right. */
  lemma Parts(value: nat, base: nat, negative: bool, prec: nat, width: nat, f: Flags)
      returns (before: nat, sign: string, prefix: string, numeral: string, after: nat)
    requires 2 <= base <= 16 && (value != 0 || !f.precision)
    ensures
      var digits := Written(value, base, f);
      var n := Places(|digits|, base, prec, Field(width, negative, f), f);
      && Layout(digits, negative, base, prec, width, f)
         == Repeat(' ', before) + (sign + (prefix + numeral)) + Repeat(' ', after)
      && sign == (if SignRoom(n, base, f) then Sign(negative, f) else "") && |numeral| == n
      && prefix == (if n == BUFFER then "" else if Stuck(n, base, f) then Mark(base, f) else Nought(f) + Mark(base, f))
      && Numeral(numeral, base) && Read(numeral, base) == value % Power(base, n)
  {
    var digits, field := Written(value, base, f), Field(width, negative, f);
    FillBounds(|digits|, prec, field, f);
    hide Written, Field, Fill, Body, Padded, Reverse, Read, Numeral, Zeros, SignRoom, Stuck, Mark, Nought, Sign;
    var kept;
    sign, prefix, kept := BodyParts(digits, negative, base, prec, field, f);
    numeral := Reverse(kept);
    before, after := PadParts(Body(digits, negative, base, prec, field, f), field, f);
    KeptReads(value, base, f, |kept|, Fill(|digits|, prec, field, f));
  }

  lemma FillBounds(len: nat, prec: nat, field: nat, f: Flags)
    requires len <= BUFFER
    ensures len <= Fill(len, prec, field, f) <= BUFFER
  {
  }

  /**
   Whatever the padding, the output reads back as the value modulo base^n, n being the digit places left, and the
   sign survives exactly if it has room; only a mark that is stuck in front of the digits makes them unreadable.
   */
  lemma ReadsBack(value: nat, base: nat, negative: bool, prec: nat, width: nat, f: Flags)
    requires 2 <= base <= 16 && (value != 0 || !f.precision)
    ensures
      var digits := Written(value, base, f);
      var n := Places(|digits|, base, prec, Field(width, negative, f), f);
      Parse(Layout(digits, negative, base, prec, width, f), base)
      == if Stuck(n, base, f) then (false, 0) else (negative && SignRoom(n, base, f), value % Power(base, n))
  {
    SignShort(negative, f);
    hide Written, Field, Layout, Parse, Places, Sign, Read, Numeral;
    var before, sign, prefix, numeral, after := Parts(value, base, negative, prec, width, f);
    var digits := Written(value, base, f);
    var n := Places(|digits|, base, prec, Field(width, negative, f), f);
    if Stuck(n, base, f) {
      Unreadable(before, prefix, numeral, after, base);
      assert sign + (prefix + numeral) == prefix + numeral;
    } else {
      NotEmpty(value, base, negative, prec, width, f);
      ParsesBack(before, sign, prefix, numeral, after, base);
    }
  }

  lemma Unreadable(before: nat, mark: string, numeral: string, after: nat, base: nat)
    requires mark in {"x", "X", "b"} && 2 <= base <= 16 && (mark == "b" ==> base == 2)
    ensures Parse(Repeat(' ', before) + (mark + numeral) + Repeat(' ', after), base) == (false, 0)
  {
    var text := mark + numeral + Repeat(' ', after);
    assert Repeat(' ', before) + (mark + numeral) + Repeat(' ', after) == Repeat(' ', before) + text;
    SkipsSpaces(before, text);
    assert text[0] == mark[0];
    assert TakeDigits(text, base) == [];
  }

  /** Some digit place is left, or the zero of the prefix stands for it. */
  lemma NotEmpty(value: nat, base: nat, negative: bool, prec: nat, width: nat, f: Flags)
    requires 2 <= base <= 16 && (value != 0 || !f.precision)
    ensures Places(|Written(value, base, f)|, base, prec, Field(width, negative, f), f) > 0 || f.hash
  {
    LsdNumeral(value, base, f.upper);
  }

  // ---- when nothing is lost

  /** The value printed reads back exactly if it is below base^n and the mark is not stuck. */
  lemma SurvivesExactly(value: nat, base: nat, negative: bool, prec: nat, width: nat, flags: Flags)
    requires 2 <= base <= 16 && (value != 0 || !flags.precision)
    ensures
      var f := Effective(value, flags);
      var digits := Written(value, base, f);
      var n := Places(|digits|, base, prec, Field(width, negative, f), f);
      Parse(Layout(digits, negative, base, prec, width, f), base).1 == value <==>
        !Stuck(n, base, f) && value < Power(base, n)
  {
    hide Written, Layout, Parse, Places, SignRoom, Power;
    var f := Effective(value, flags);
    ReadsBack(value, base, negative, prec, width, f);
    SmallMod(value, Power(base, Places(|Written(value, base, f)|, base, prec, Field(width, negative, f), f)));
  }

  /** Without the alternative form, and for a number of at most 22 digits, the sign has room. */
  predicate SignFits(prec: nat, width: nat, negative: bool, f: Flags) {
    f.left || (prec < BUFFER && (f.zeropad ==> Field(width, negative, f) < BUFFER))
  }

  /** From base 8 on, and without the alternative form, every value is printed in full. */
  lemma PrintedInFull(value: u64, base: nat, negative: bool, prec: nat, width: nat, f: Flags)
    requires 8 <= base <= 16 && !f.hash && (value != 0 || !f.precision)
    ensures
      var n := Places(|Written(value, base, f)|, base, prec, Field(width, negative, f), f);
      value < Power(base, n) && !Stuck(n, base, f) && (SignRoom(n, base, f) <==> SignFits(prec, width, negative, f))
  {
    hide Lsd;
    AtMost22(value, base, f.upper);
    LsdBound(value, base, f.upper);
    var len := |Lsd(value, base, f.upper)|;
    assert |Written(value, base, f)| == len;
    PowerGrows(base, len, Fill(len, prec, Field(width, negative, f), f));
  }

  /** So it reads back, and with a width and a precision of at most 31 the sign does too. */
  lemma PlainReadsBack(value: u64, base: nat, negative: bool, prec: nat, width: nat, f: Flags)
    requires 8 <= base <= 16 && !f.hash && (value != 0 || !f.precision)
    ensures Parse(Layout(Written(value, base, f), negative, base, prec, width, f), base)
         == (negative && SignFits(prec, width, negative, f), value)
    ensures prec <= 31 && width <= 31 ==> SignFits(prec, width, negative, f)
  {
    hide Written, Layout, Parse, Places, SignRoom, Stuck;
    ReadsBack(value, base, negative, prec, width, f);
    PrintedInFull(value, base, negative, prec, width, f);
    var n := Places(|Written(value, base, f)|, base, prec, Field(width, negative, f), f);
    SmallMod(value, Power(base, n));
  }

  /** The alternative form takes digits for padding: "%#4x" prints 0x1234 as 0x34. */
  lemma HashEats()
    ensures
      var f := Flags(false, false, false, false, true, false, false);
      && Layout(Written(0x1234, 16, f), false, 16, 0, 4, f) == "0x34"
      && Parse("0x34", 16) == (false, 0x34)
  {
    var f := Flags(false, false, false, false, true, false, false);
    FourDigits();
    hide Lsd;
    assert Written(0x1234, 16, f) == "4321"[..4] == "4321";
    hide Written;
    assert Zeros("4321", 4)[..2] == "43";
    assert Body("4321", false, 16, 0, 4, f) == "43x0";
    hide Body;
    ReverseConcat("43", "x0");
    assert Reverse("43x0") == "0x34";
  }

  lemma FourDigits()
    ensures Lsd(0x1234, 16, false) == "4321"
  {
    hide Lsd;
    LsdStep(0x1234, 16, false, 0x123, 4);
    LsdStep(0x123, 16, false, 0x12, 3);
    LsdStep(0x12, 16, false, 1, 2);
    LsdStep(1, 16, false, 0, 1);
  }

  /** What is printed in decimal, _atoi reads back modulo 2^32 from its first digit on. */
  method PrintThenAtoi(value: u64, negative: bool, prec: nat, width: nat, flags: Flags) returns (v: nat)
    requires value != 0 || !flags.precision
    ensures
      var f := Effective(value, flags);
      v == Mod32(value % Power(10, Places(|Written(value, 10, f)|, 10, prec, Field(width, negative, f), f)))
    ensures !flags.hash ==> v == Mod32(value)
  {
    hide Layout, Mod32, Written, Places, Field, Read;
    ghost var t, d;
    var out;
    out, t, d := Ntoa(value, negative, 10, prec, width, flags);
    ghost var start, stop := DecimalText(value, negative, prec, width, Effective(value, flags));
    if !flags.hash {
      PrintedInFull(value, 10, negative, prec, width, flags);
      SmallMod(value, Power(10, Places(|Written(value, 10, flags)|, 10, prec, Field(width, negative, flags), flags)));
    }
    var p := 0;
    while !IsDecimal(out[p])
      invariant 0 <= p <= start < |out|
      decreases |out| - p
    {
      p := p + 1;
    }
    var end;
    v, end := Atoi(out, p);
    assert stop < |out| ==> !IsDecimal(out[stop]);
    assert end < |out| ==> !IsDecimal(out[end]);
    assert end == stop;
  }

  /** The decimal digits of the output form one run, which stands for what was printed. */
  lemma DecimalText(value: nat, negative: bool, prec: nat, width: nat, f: Flags) returns (start: nat, stop: nat)
    requires value != 0 || !f.precision
    ensures
      var digits := Written(value, 10, f);
      var out := Layout(digits, negative, 10, prec, width, f);
      && start < stop <= |out| && (forall k :: 0 <= k < |out| ==> (IsDecimal(out[k]) <==> start <= k < stop))
      && Read(out[start..stop], 10) == value % Power(10, Places(|digits|, 10, prec, Field(width, negative, f), f))
  {
    hide Layout, Lsd, Written, Places, Field, Sign, SignRoom, Repeat, Numeral, Read, IsDecimal;
    SignShort(negative, f);
    NotEmpty(value, 10, negative, prec, width, f);
    var before, sign, prefix, numeral, after := Parts(value, 10, negative, prec, width, f);
    NoMark(f);
    hide Mark, Nought, Stuck;
    WithZero(prefix, numeral);
    start := before + |sign|;
    stop := start + |prefix + numeral|;
    Decimals(before, sign, prefix + numeral, after);
  }

  lemma NoMark(f: Flags)
    ensures Mark(10, f) == "" && Nought(f) + "" in {"", "0"} && forall n :: !Stuck(n, 10, f)
  {
    assert Nought(f) + "" == Nought(f);
  }

  lemma WithZero(prefix: string, numeral: string)
    requires prefix in {"", "0"} && Numeral(numeral, 10)
    ensures Numeral(prefix + numeral, 10) && Read(prefix + numeral, 10) == Read(numeral, 10)
  {
    if prefix == "0" {
      assert Repeat('0', 1) == "0";
      LeadingZeros(1, numeral, 10);
    } else {
      assert prefix + numeral == numeral;
    }
  }

  /** The numeral holds the only decimal digits. */
  lemma Decimals(before: nat, sign: string, numeral: string, after: nat)
    requires Numeral(numeral, 10) && numeral != [] && sign in {"", "-", "+", " "}
    ensures
      var out, start := Repeat(' ', before) + (sign + numeral) + Repeat(' ', after), before + |sign|;
      && (forall k :: 0 <= k < |out| ==> (IsDecimal(out[k]) <==> start <= k < start + |numeral|))
      && out[start..start + |numeral|] == numeral
  {
  }
}
