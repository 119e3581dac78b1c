/**
  The rounding functions of `util.c` on 64-bit unsigned numbers.
 */
module Arith {

  const TWO_TO_THE_64: nat := 0x1_0000_0000_0000_0000

  // `roundup`: value - 1 wraps around for zero, and so does the product if the
  // last multiple of align is 2^64.
  function Roundup(value: nat, align: nat): nat
    requires align > 0
  {
    if value == 0
    then ((TWO_TO_THE_64 - 1) / align + 1) * align % TWO_TO_THE_64
    else ((value - 1) / align + 1) * align
  }

  // `rounddown`
  function Rounddown(value: nat, align: nat): nat
    requires align > 0
  {
    value - value % align
  }

  lemma ProductIsNat(a: nat, b: nat)
    ensures a * b >= 0
  {
  }

  lemma NextMultiple(m: int, n: int, align: nat)
    requires m < n
    ensures m * align + align <= n * align
  {
    ProductIsNat(n - m - 1, align);
    assert (n - m - 1) * align == n * align - m * align - align;
  }

  lemma DivMod(x: nat, align: nat)
    requires align > 0
    ensures x == x / align * align + x % align
    ensures 0 <= x % align < align
  {
  }

  // Quotient and remainder are unique.
  lemma DivModUnique(x: nat, q: nat, r: nat, align: nat)
    requires align > 0 && r < align && x == q * align + r
    ensures x / align == q && x % align == r
  {
    hide *;
    DivMod(x, align);
    var d := x / align;
    if q < d {
      NextMultiple(q, d, align);
    } else if d < q {
      NextMultiple(d, q, align);
    }
  }

  lemma MultipleMod(k: nat, align: nat)
    requires align > 0
    ensures k * align % align == 0
    ensures k * align / align == k
  {
    DivModUnique(k * align, k, 0, align);
  }

  // The smallest multiple of align that is not below the value.
  lemma RoundupIsLeastMultiple(value: nat, align: nat)
    requires align > 0 && value > 0
    ensures var r := Roundup(value, align);
            && value <= r < value + align
            && r % align == 0
  {
    var q := (value - 1) / align;
    DivMod(value - 1, align);
    assert (q + 1) * align == q * align + align;
    MultipleMod(q + 1, align);
  }

  // Rounding up never goes down, and only moves a multiple if it is zero.
  lemma RoundupMultiple(value: nat, align: nat)
    requires align > 0 && value > 0 && value % align == 0
    ensures Roundup(value, align) == value
  {
    hide Roundup;
    RoundupIsLeastMultiple(value, align);
    var r := Roundup(value, align);
    DivMod(value, align);
    DivMod(r, align);
    var m, n := value / align, r / align;
    if m < n {
      NextMultiple(m, n, align);
    } else if n < m {
      NextMultiple(n, m, align);
    }
  }

  // Zero is rounded to zero if and only if align divides 2^64.
  lemma RoundupZero(align: nat)
    requires 0 < align < TWO_TO_THE_64
    ensures Roundup(0, align) == 0 <==> TWO_TO_THE_64 % align == 0
  {
    var n := TWO_TO_THE_64;
    var q := (n - 1) / align;
    DivMod(n - 1, align);
    var top := (q + 1) * align;
    assert top == q * align + align;
    assert n <= top < n + align;
    if top == n {
      MultipleMod(q + 1, align);
    } else {
      DivModUnique(n, q, n - q * align, align);
      assert top % n == top - n by {
        DivModUnique(top, 1, top - n, n);
      }
    }
  }
}
