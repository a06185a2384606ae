/** Masking addresses: `x & ~(a - 1)` for a power of two `a`. */
module Bits {

  predicate PowerOfTwo(x: nat)
  {
    x == 1 || (x > 1 && x % 2 == 0 && PowerOfTwo(x / 2))
  }

  /** `x & ~y`, bit by bit. */
  function AndNot(x: nat, y: nat): nat
  {
    if x == 0 then 0
    else (if x % 2 == 1 && y % 2 == 0 then 1 else 0) + 2 * AndNot(x / 2, y / 2)
  }

  lemma {:induction false} AndNotZero(x: nat)
    ensures AndNot(x, 0) == x
  {
    if x > 0 {
      AndNotZero(x / 2);
    }
  }

  lemma ModHalves(x: nat, b: nat)
    requires b > 0
    ensures x % (2 * b) == 2 * (x / 2 % b) + x % 2
  {
    var q, r := x / 2 / b, x / 2 % b;
    assert x / 2 == q * b + r;
    assert x == 2 * (x / 2) + x % 2;
    var low := 2 * r + x % 2;
    assert x == q * (2 * b) + low && 0 <= low < 2 * b;
    ModUnique(x, 2 * b, q, low);
  }

  lemma ModUnique(x: nat, d: nat, q: nat, r: nat)
    requires d > 0 && x == q * d + r && r < d
    ensures x % d == r
  {
    var q', r' := x / d, x % d;
    assert x == q' * d + r';
    MulMonotone(q' + 1, q, d);
    MulMonotone(q + 1, q', d);
  }

  lemma MulMonotone(x: nat, y: nat, d: nat)
    ensures x <= y ==> x * d <= y * d
    ensures x * d == (x - 1) * d + d
  {
  }

  /** The mask of a power of two rounds down to a multiple of it. */
  lemma {:induction false} MaskRoundsDown(x: nat, a: nat)
    requires PowerOfTwo(a)
    ensures AndNot(x, a - 1) == x - x % a
  {
    if a == 1 {
      AndNotZero(x);
    } else {
      var b := a / 2;
      assert a - 1 == 2 * (b - 1) + 1;
      MaskRoundsDown(x / 2, b);
      ModHalves(x, b);
      assert x == 2 * (x / 2) + x % 2;
    }
  }

  lemma MaskedIsMultiple(x: nat, a: nat)
    requires PowerOfTwo(a)
    ensures AndNot(x, a - 1) <= x < AndNot(x, a - 1) + a && AndNot(x, a - 1) % a == 0
  {
    MaskRoundsDown(x, a);
    DownIsMultiple(x, a);
  }

  lemma DownIsMultiple(x: nat, a: nat)
    requires a > 0
    ensures (x - x % a) % a == 0 && x - x % a <= x < x - x % a + a
  {
    var q, r := x / a, x % a;
    assert x == q * a + r;
    ModUnique(q * a, a, q, 0);
  }

  lemma PowerOfTwoPage()
    ensures PowerOfTwo(4096)
  {
    assert PowerOfTwo(16);
    assert PowerOfTwo(256);
  }
}
