/** Machine-integer operations of the source and the division facts behind grain addressing. */
module Arith {
  import opened Wrappers

  const U32_LIMIT := 0x1_0000_0000
  const U64_MAX := 0xffff_ffff_ffff_ffff
  const I64_MAX := 0x7fff_ffff_ffff_ffff

  type byte = x: int | 0 <= x < 0x100
  type u32 = x: int | 0 <= x < 0x1_0000_0000
  type u64 = x: int | 0 <= x <= 0xffff_ffff_ffff_ffff
  type i64 = x: int | -0x8000_0000_0000_0000 <= x <= 0x7fff_ffff_ffff_ffff

  function Min(a: int, b: int): int {
    if a < b then a else b
  }

  // Overflow policies of the source: checked, saturating and (release-build) wrapping.

  function CheckedAdd(a: nat, b: nat): Option<u64> {
    if a + b <= U64_MAX then Some(a + b) else None
  }

  function CheckedMul(a: nat, b: nat): Option<u64> {
    if a * b <= U64_MAX then Some(a * b) else None
  }

  function SatAdd(a: nat, b: nat): u64 {
    if a + b <= U64_MAX then a + b else U64_MAX
  }

  function SatMul(a: nat, b: nat): u64 {
    var p: nat := a * b;
    if p <= U64_MAX then p else U64_MAX
  }

  function Wrap64(x: nat): u64 {
    x % 0x1_0000_0000_0000_0000
  }

  /** Two's-complement reading of the low 64 bits of `x`. */
  function WrapI64(x: int): i64 {
    (x + 0x8000_0000_0000_0000) % 0x1_0000_0000_0000_0000 - 0x8000_0000_0000_0000
  }

  lemma WrapSmall(a: nat)
    requires a <= U64_MAX
    ensures Wrap64(a) == a
  {
  }

  /** Rust's `u64::div_ceil`. */
  function DivCeil(a: nat, b: nat): nat
    requires b > 0
  {
    a / b + (if a % b > 0 then 1 else 0)
  }

  // ── division facts ────────────────────────────────────────────────────────

  lemma DivMod(a: nat, b: nat)
    requires b > 0
    ensures a == (a / b) * b + a % b
    ensures 0 <= a % b < b
    ensures 0 <= a / b
  {
  }

  lemma MulMono(a: nat, b: nat, c: nat)
    requires a <= b
    ensures a * c <= b * c
  {
  }

  /** A larger quotient means a larger number, whatever the remainders. */
  lemma QuotientLess(q: nat, r: nat, q': nat, r': nat, b: nat)
    requires r < b && q < q'
    ensures q * b + r < q' * b + r'
  {
    MulMono(q + 1, q', b);
    assert (q + 1) * b == q * b + b;
  }

  /** A quotient and remainder in range are *the* quotient and remainder. */
  lemma DivModUnique(q: nat, r: nat, b: nat)
    requires r < b
    ensures (q * b + r) / b == q
    ensures (q * b + r) % b == r
  {
    var a := q * b + r;
    DivMod(a, b);
    var q', r' := a / b, a % b;
    if q' < q {
      QuotientLess(q', r', q, r, b);
    } else if q < q' {
      QuotientLess(q, r, q', r', b);
    }
  }

  /** `a / b < n` exactly when `a < n * b`. */
  lemma DivLess(a: nat, b: nat, n: nat)
    requires b > 0
    ensures a / b < n <==> a < n * b
  {
    DivMod(a, b);
    if a / b < n {
      MulMono(a / b + 1, n, b);
    } else {
      MulMono(n, a / b, b);
    }
  }

  /** Both spellings of the rounded-up quotient agree. */
  lemma DivCeilAsFloor(a: nat, b: nat)
    requires b > 0
    ensures DivCeil(a, b) == (a + (b - 1)) / b
  {
    DivMod(a, b);
    var q, r := a / b, a % b;
    if r == 0 {
      DivModUnique(q, b - 1, b);
    } else {
      assert a + (b - 1) == (q + 1) * b + (r - 1);
      DivModUnique(q + 1, r - 1, b);
    }
  }

  /** The defining property of the rounded-up quotient. */
  lemma DivCeilBounds(a: nat, b: nat, n: nat)
    requires b > 0
    ensures n < DivCeil(a, b) <==> n * b < a
  {
    DivMod(a, b);
    if n * b < a {
      if n >= DivCeil(a, b) {
        MulMono(DivCeil(a, b), n, b);
      }
    } else if n < DivCeil(a, b) {
      if a % b == 0 {
        MulMono(n + 1, a / b, b);
      } else {
        MulMono(n, a / b, b);
      }
    }
  }

  lemma CeilBelow(a: nat, b: nat)
    requires b > 0
    ensures DivCeil(a, b) <= a
  {
    MulMono(1, b, a);
    DivCeilBounds(a, b, a);
  }

  /** Dividing by `b` then `c` is dividing by `b * c`. */
  lemma DivDiv(a: nat, b: nat, c: nat)
    requires b > 0 && c > 0
    ensures b * c > 0
    ensures a / b / c == a / (b * c)
  {
    DivMod(a, b);
    DivMod(a / b, c);
    var q := a / b / c;
    var r := (a / b) % c;
    assert a == (q * c + r) * b + a % b;
    assert (q * c + r) * b == q * (b * c) + r * b by {
      assert q * c * b == q * (b * c);
    }
    MulMono(r, c - 1, b);
    assert (c - 1) * b + b == b * c;
    DivModUnique(q, r * b + a % b, b * c);
  }
}
