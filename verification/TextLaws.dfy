/** What a formatted integer should look like, character by character; the formatter is kernel/src/lib/printf.c. */
module TextLaws {
  import opened Digits

  /** PRINTF_NTOA_BUFFER_SIZE. */
  const BUFFER: nat := 32

  datatype Flags = Flags(left: bool, zeropad: bool, plus: bool, space: bool, hash: bool, upper: bool, precision: bool)

  function Larger(a: nat, b: nat): nat { if a < b then b else a }

  function Smaller(a: nat, b: nat): nat { if a < b then a else b }

  /** Spaces, sign, prefix, then zeros and digits without the first few of them, and spaces. */
  datatype Text = Text(before: nat, sign: string, prefix: string, zeros: nat, cut: nat, after: nat)

  /** How many zeros and digits are left of n digits. */
  function Shown(t: Text, n: nat): int { t.zeros + n - t.cut }

  function Write(t: Text, digits: string): string
    requires t.cut <= t.zeros + |digits|
  {
    Repeat(' ', t.before) + (t.sign + (t.prefix + (Repeat('0', t.zeros) + digits)[t.cut..])) + Repeat(' ', t.after)
  }

  /** The character that stands for the sign. */
  function SignChar(negative: bool, f: Flags): string {
    if negative then "-" else if f.plus then "+" else if f.space then " " else ""
  }

  /** The field left for zeros, which a sign makes one smaller. */
  function ZeroField(negative: bool, width: nat, f: Flags): nat {
    if SignChar(negative, f) != "" && f.zeropad && !f.left && width > 0 then width - 1 else width
  }

  /** Left-aligned numbers get no zeros; others are filled up to the precision, and if so flagged to the field. */
  ghost predicate ZerosRight(t: Text, n: nat, negative: bool, prec: nat, width: nat, f: Flags) {
    var byPrecision := Larger(n, Smaller(prec, BUFFER));
    t.zeros + n ==
      if f.left then n
      else if !f.zeropad then byPrecision
      else Larger(byPrecision, Smaller(ZeroField(negative, width, f), BUFFER))
  }

  /** Only the alternative form takes anything back, and only if zeros and digits fill the precision or the field. */
  ghost predicate CutRight(t: Text, n: nat, negative: bool, base: nat, prec: nat, width: nat, f: Flags) {
    var m := t.zeros + n;
    t.cut ==
      if !f.hash || f.precision || m == 0 || (m != prec && m != ZeroField(negative, width, f)) then 0
      else if base == 16 && m > 1 then 2
      else 1
  }

  /** The letter of the base with its zero, as far as the buffer has room. */
  ghost predicate PrefixRight(t: Text, n: nat, base: nat, f: Flags) {
    var letter := if base == 16 then (if f.upper then "X" else "x") else if base == 2 then "b" else "";
    t.prefix ==
      if !f.hash || Shown(t, n) == BUFFER then ""
      else if letter != "" && Shown(t, n) == BUFFER - 1 then letter
      else "0" + letter
  }

  ghost predicate SignRight(t: Text, n: nat, negative: bool, f: Flags) {
    t.sign == if Shown(t, n) + |t.prefix| < BUFFER then SignChar(negative, f) else ""
  }

  /** Spaces fill the width: on the right if so flagged, else on the left, and not at all if zeros do. */
  ghost predicate SpacesRight(t: Text, n: nat, width: nat, f: Flags) {
    var core := |t.sign| + |t.prefix| + Shown(t, n);
    var pad := if width > core then width - core else 0;
    && t.before == (if !f.left && !f.zeropad then pad else 0)
    && t.after == (if f.left then pad else 0)
  }

  /** The text of a number of n digits. */
  ghost predicate Shaped(t: Text, n: nat, negative: bool, base: nat, prec: nat, width: nat, f: Flags) {
    && ZerosRight(t, n, negative, prec, width, f) && CutRight(t, n, negative, base, prec, width, f)
    && t.cut <= t.zeros + n <= BUFFER && PrefixRight(t, n, base, f) && SignRight(t, n, negative, f)
    && SpacesRight(t, n, width, f)
  }

  /** Letters among the digits are of the case asked for. */
  ghost predicate Cased(digits: string, upper: bool) {
    forall i :: 0 <= i < |digits| ==>
      ('a' <= digits[i] <= 'f' ==> !upper) && ('A' <= digits[i] <= 'F' ==> upper)
  }

  /** The digits of the value, most significant first: all of them, or the 32 lowest. */
  ghost predicate DigitsRight(digits: string, value: nat, base: nat, f: Flags)
    requires base >= 2
  {
    if value == 0 && f.precision then digits == ""
    else
      && 0 < |digits| <= BUFFER && Numeral(digits, base) && Cased(digits, f.upper)
      && Read(digits, base) == value % Power(base, BUFFER)
      && (|digits| < BUFFER ==> Read(digits, base) == value)
      && (|digits| < BUFFER && value > 0 ==> digits[0] != '0') && (value == 0 ==> digits == "0")
  }

  // ---- what that comes to

  lemma WriteLength(t: Text, digits: string)
    requires t.cut <= t.zeros + |digits|
    ensures |Write(t, digits)| == t.before + |t.sign| + |t.prefix| + Shown(t, |digits|) + t.after
  {
  }

  /** With spaces for padding, the text is as long as the width, or as the number if that is longer. */
  lemma PaddedLength(t: Text, digits: string, negative: bool, base: nat, prec: nat, width: nat, f: Flags)
    requires Shaped(t, |digits|, negative, base, prec, width, f) && (f.left || !f.zeropad)
    ensures |Write(t, digits)| == Larger(width, |t.sign| + |t.prefix| + Shown(t, |digits|))
  {
    WriteLength(t, digits);
  }

  /** With zeros for padding, a number that fits the width and the buffer is exactly as long as the width. */
  lemma ZeroedLength(t: Text, digits: string, negative: bool, base: nat, prec: nat, width: nat, f: Flags)
    requires Shaped(t, |digits|, negative, base, prec, width, f) && f.zeropad && !f.left && !f.hash && width <= BUFFER
    requires Larger(|digits|, Smaller(prec, BUFFER)) + |SignChar(negative, f)| <= width
    ensures |Write(t, digits)| == width && t.before == t.after == 0 && t.sign == SignChar(negative, f)
  {
    WriteLength(t, digits);
  }
}
