/** Machine integers of the kernel, as bounded mathematical integers. */
module Words {
  const U64_RANGE: nat := 0x1_0000_0000_0000_0000

  /** ARCH_PAGE_GRAN. */
  const PAGE: nat := 0x1000

  type u8 = x: int | 0 <= x < 0x100
  type u64 = x: int | 0 <= x < 0x1_0000_0000_0000_0000

  /** 64-bit unsigned arithmetic drops the carry. */
  function Wrap(x: int): (r: u64)
    ensures 0 <= x < U64_RANGE ==> r == x
  {
    x % U64_RANGE
  }

  datatype Option<+T> = None | Some(value: T)

  /** No element twice. */
  ghost predicate Distinct<T>(s: seq<T>) { forall i, j :: 0 <= i < j < |s| ==> s[i] != s[j] }

  /** Quotient and remainder are the only such numbers. */
  lemma ModUnique(x: nat, d: nat, q: nat, r: nat)
    requires d > 0 && x == q * d + r && r < d
    ensures x / d == q && x % d == r
  {
    var q', r' := x / d, x % d;
    assert x == q' * d + r';
    assert (q - q') * d == r' - r;
    if q > q' {
      MulAtLeast(q - q', d);
    } else if q < q' {
      assert (q' - q) * d == r - r';
      MulAtLeast(q' - q, d);
    }
  }

  lemma MulAtLeast(a: nat, d: nat)
    requires a >= 1
    ensures a * d >= d
  {
    assert a * d == d + (a - 1) * d;
  }
}
