/** Bitwise operators on naturals, defined bit by bit, and when they amount to division, remainder
    and sum. */
module Bitwise {
  import opened Words

  function And(x: nat, y: nat): nat {
    if x == 0 then 0 else 2 * And(x / 2, y / 2) + (if x % 2 == 1 && y % 2 == 1 then 1 else 0)
  }

  function Or(x: nat, y: nat): nat {
    if x == 0 then y else 2 * Or(x / 2, y / 2) + (if x % 2 == 1 || y % 2 == 1 then 1 else 0)
  }

  function ShiftRight(x: nat, k: nat): nat {
    if k == 0 then x else ShiftRight(x / 2, k - 1)
  }

  lemma {:induction false} BytePowers()
    ensures Pow2(1) == 2 && Pow2(2) == 4 && Pow2(3) == 8 && Pow2(4) == 16 && Pow2(5) == 32 && Pow2(6) == 64
    ensures Pow2(7) == 128 && Pow2(8) == 256
  {
  }

  lemma {:induction false} Powers()
    ensures Pow2(9) == 0x200 && Pow2(12) == PAGE_SIZE && Pow2(21) == 0x20_0000 && Pow2(64) == TWO64
  {
    BytePowers();
    PowersAdd(8, 1);
    PowersAdd(8, 4);
    PowersAdd(12, 9);
    PowersAdd(8, 8);
    PowersAdd(16, 16);
    PowersAdd(32, 32);
  }

  lemma {:induction false} PowersAdd(k: nat, l: nat)
    ensures Pow2(k + l) == Pow2(k) * Pow2(l)
  {
    if l > 0 { PowersAdd(k, l - 1); }
  }

  lemma {:induction false} ModDouble(x: nat, p: nat)
    requires 0 < p
    ensures x % (2 * p) == 2 * (x / 2 % p) + x % 2
  {
    var q, r := x / 2 / p, x / 2 % p;
    assert x / 2 == p * q + r;
    assert x == 2 * p * q + (2 * r + x % 2);
    ModOf(x, 2 * p, q, 2 * r + x % 2);
  }

  lemma {:induction false} LessMultiple(d: nat, p: nat, q: nat)
    requires p < q
    ensures d * p + d <= d * q
  {
    assert d * q == d * p + d * (q - p);
    assert d * (q - p) == d + d * (q - p - 1);
  }

  lemma {:induction false} ModOf(x: nat, d: nat, q: nat, r: nat)
    requires r < d && x == d * q + r
    ensures x % d == r && x / d == q
  {
    var p := x / d;
    assert x == d * p + x % d;
    if p < q { LessMultiple(d, p, q); }
    if q < p { LessMultiple(d, q, p); }
  }

  /** A mask of the k low bits takes the remainder. */
  lemma {:induction false} LowMask(x: nat, k: nat)
    ensures And(x, Pow2(k) - 1) == x % Pow2(k)
  {
    if k == 0 {
      ZeroMask(x);
    } else if x != 0 {
      LowMask(x / 2, k - 1);
      ModDouble(x, Pow2(k - 1));
      assert (Pow2(k) - 1) / 2 == Pow2(k - 1) - 1;
    }
  }

  lemma {:induction false} ZeroMask(x: nat)
    ensures And(x, 0) == 0
  {
    if x != 0 { ZeroMask(x / 2); }
  }

  lemma {:induction false} AndEven(x: nat, y: nat)
    ensures And(x, 2 * y) == 2 * And(x / 2, y)
  {
  }

  lemma {:induction false} PowersGrow(k: nat, n: nat)
    requires k <= n
    ensures Pow2(k) <= Pow2(n)
  {
    if k < n { PowersGrow(k, n - 1); }
  }

  lemma {:induction false} FullMask(x: nat, n: nat)
    requires x < Pow2(n)
    ensures And(x, Pow2(n) - 1) == x
  {
    LowMask(x, n);
    ModOf(x, Pow2(n), 0, x);
  }

  lemma {:induction false} HalfBelow(x: nat, n: nat)
    requires x < Pow2(n) && 0 < n
    ensures x / 2 < Pow2(n - 1)
  {
  }

  /** One bit more below a mask of high bits. */
  lemma {:induction false} MaskBelow(x: nat, y: nat, p: nat)
    requires 0 < p && And(x / 2, y) == x / 2 - x / 2 % p
    ensures And(x, 2 * y) == x - x % (2 * p)
  {
    AndEven(x, y);
    ModDouble(x, p);
  }

  /** A mask of bits k to n - 1 of an n-bit word clears the remainder. */
  lemma {:induction false} MaskClears(x: nat, k: nat, n: nat, p: nat, mask: nat)
    requires k <= n && x < Pow2(n) && p == Pow2(k) && p + mask == Pow2(n)
    ensures And(x, mask) == x - x % p
    decreases k
  {
    if k == 0 {
      FullMask(x, n);
    } else {
      var p', mask' := Pow2(k - 1), mask / 2;
      assert p == 2 * p' && mask == 2 * mask';
      HalfBelow(x, n);
      MaskClears(x / 2, k - 1, n - 1, p', mask');
      MaskBelow(x, mask', p');
    }
  }

  lemma {:induction false} HighMask(x: nat, k: nat, n: nat)
    requires k <= n && x < Pow2(n)
    ensures Pow2(k) <= Pow2(n) && And(x, Pow2(n) - Pow2(k)) == x - x % Pow2(k)
  {
    PowersGrow(k, n);
    MaskClears(x, k, n, Pow2(k), Pow2(n) - Pow2(k));
  }

  /** An OR with low bits that are clear adds them. */
  lemma {:induction false} OrAdds(a: nat, b: nat, k: nat)
    requires a % Pow2(k) == 0 && b < Pow2(k)
    ensures Or(a, b) == a + b
  {
    if k == 0 {
      OrZero(a);
    } else if a != 0 {
      ModDouble(a, Pow2(k - 1));
      OrAdds(a / 2, b / 2, k - 1);
    }
  }

  lemma {:induction false} OrZero(a: nat)
    ensures Or(a, 0) == a
  {
    if a != 0 { OrZero(a / 2); }
  }

  /** An OR with a bit that is set changes nothing. */
  lemma {:induction false} OrSet(x: nat, k: nat)
    requires x / Pow2(k) % 2 == 1
    ensures Or(x, Pow2(k)) == x
  {
    if k == 0 {
      OrZero(x / 2);
    } else {
      DivTwice(x, Pow2(k - 1));
      OrSet(x / 2, k - 1);
    }
  }

  lemma {:induction false} DivTwice(x: nat, p: nat)
    requires 0 < p
    ensures x / (2 * p) == x / 2 / p
  {
    var q, r := x / 2 / p, x / 2 % p;
    assert x / 2 == p * q + r;
    assert x == 2 * p * q + (2 * r + x % 2);
    ModOf(x, 2 * p, q, 2 * r + x % 2);
  }

  /** A mask of a single bit tests it. */
  lemma {:induction false} OneBit(x: nat, k: nat)
    ensures And(x, Pow2(k)) != 0 <==> x / Pow2(k) % 2 == 1
  {
    if k == 0 {
      ZeroMask(x / 2);
    } else if x != 0 {
      DivTwice(x, Pow2(k - 1));
      OneBit(x / 2, k - 1);
    }
  }

  lemma {:induction false} ShiftDivides(x: nat, k: nat)
    ensures ShiftRight(x, k) == x / Pow2(k)
  {
    if k > 0 {
      ShiftDivides(x / 2, k - 1);
      DivTwice(x, Pow2(k - 1));
    }
  }
}
