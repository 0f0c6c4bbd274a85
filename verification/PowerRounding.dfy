/** Rounding up to a power of two: what the bit-smearing of `NextPowerOfTwo` computes. */
module PowerRounding {
  import opened Words

  /** The least power of two that is at least `i`. */
  function NextPowerOfTwo(i: nat): (r: nat)
    ensures IsPowerOfTwo(r) && i <= r
  {
    OneIsPowerOfTwo();
    if i <= 1 then 1 else
      Doubling(NextPowerOfTwo((i + 1) / 2));
      2 * NextPowerOfTwo((i + 1) / 2)
  }

  lemma {:induction false} NextPowerOfTwoIsLeast(i: nat, p: nat)
    requires IsPowerOfTwo(p) && i <= p
    ensures NextPowerOfTwo(i) <= p
    decreases i
  {
    if i > 1 {
      Halving(p);
      NextPowerOfTwoIsLeast((i + 1) / 2, p / 2);
    }
  }

  // ----- Smearing -----

  /** Bitwise disjunction, one bit at a time. */
  function Or(x: nat, y: nat): nat
    decreases x + y
  {
    if x == 0 && y == 0 then 0
    else (if x % 2 == 1 || y % 2 == 1 then 1 else 0) + 2 * Or(x / 2, y / 2)
  }

  /** `n >> a` */
  function ShiftRight(n: nat, a: nat): nat {
    if a == 0 then n else ShiftRight(n / 2, a - 1)
  }

  /** The disjunction of `n >> 0` to `n >> (width - 1)`. */
  function Smear(n: nat, width: nat): nat {
    if width == 0 then 0 else Or(n, Smear(n / 2, width - 1))
  }

  /** As many one bits as `n` has bits. */
  function Ones(n: nat): nat {
    if n == 0 then 0 else 1 + 2 * Ones(n / 2)
  }

  lemma {:induction false} OrAssociates(x: nat, y: nat, z: nat)
    ensures Or(Or(x, y), z) == Or(x, Or(y, z))
    decreases x + y + z
  {
    if x + y + z > 0 {
      OrAssociates(x / 2, y / 2, z / 2);
      OrHalves(x, y);
      OrHalves(y, z);
    }
  }

  lemma OrHalves(x: nat, y: nat)
    ensures Or(x, y) / 2 == Or(x / 2, y / 2)
    ensures Or(x, y) % 2 == if x % 2 == 1 || y % 2 == 1 then 1 else 0
  {
  }

  lemma {:induction false} OrWithZero(x: nat)
    ensures Or(0, x) == x && Or(x, 0) == x
  {
    if x > 0 {
      OrWithZero(x / 2);
    }
  }

  lemma {:induction false} SmearHalves(n: nat, width: nat)
    ensures Smear(n, width) / 2 == Smear(n / 2, width)
    decreases width
  {
    if width > 0 {
      SmearHalves(n / 2, width - 1);
      OrHalves(n, Smear(n / 2, width - 1));
    }
  }

  lemma {:induction false} SmearShifts(n: nat, width: nat, a: nat)
    ensures ShiftRight(Smear(n, width), a) == Smear(ShiftRight(n, a), width)
    decreases a
  {
    if a > 0 {
      SmearHalves(n, width);
      SmearShifts(n / 2, width, a - 1);
    }
  }

  lemma {:induction false} SmearSplits(n: nat, a: nat, b: nat)
    ensures Smear(n, a + b) == Or(Smear(n, a), Smear(ShiftRight(n, a), b))
    decreases a
  {
    if a == 0 {
      OrWithZero(Smear(n, b));
    } else {
      SmearSplits(n / 2, a - 1, b);
      OrAssociates(n, Smear(n / 2, a - 1), Smear(ShiftRight(n, a), b));
    }
  }

  /** Or-ing a smear with itself shifted by its width doubles the width. */
  lemma SmearDoubles(n: nat, width: nat)
    ensures Or(Smear(n, width), ShiftRight(Smear(n, width), width)) == Smear(n, 2 * width)
  {
    SmearShifts(n, width, width);
    SmearSplits(n, width, width);
  }

  lemma {:induction false} OnesAbsorb(n: nat)
    ensures Or(n, Ones(n / 2)) == Ones(n)
  {
    if n > 0 {
      OnesAbsorb(n / 2);
      OrHalves(n, Ones(n / 2));
    }
  }

  /** A smear at least as wide as the number sets every bit below its highest one. */
  lemma {:induction false} WideSmear(n: nat, width: nat)
    requires n < Power(width)
    ensures Smear(n, width) == Ones(n)
    decreases width
  {
    if width > 0 {
      WideSmear(n / 2, width - 1);
      OnesAbsorb(n);
    }
  }

  lemma {:induction false} OnesBelowPower(n: nat)
    ensures Ones(n) + 1 == NextPowerOfTwo(n + 1)
  {
    if n > 0 {
      OnesBelowPower(n / 2);
      assert (n + 1 + 1) / 2 == n / 2 + 1;
    }
  }

  /** `Dali::NextPowerOfTwo`: five doublings smear the bits of `i - 1` over a 32-bit word. */
  method RoundUp(i: nat) returns (r: nat)
    requires 2 * i <= TWO_32
    ensures r == NextPowerOfTwo(i)
  {
    if i == 0 {
      return 1;
    }
    r := i - 1;
    ghost var n := r;
    OrWithZero(n);
    SmearDoubles(n, 1);
    r := Or(r, ShiftRight(r, 1));
    SmearDoubles(n, 2);
    r := Or(r, ShiftRight(r, 2));
    SmearDoubles(n, 4);
    r := Or(r, ShiftRight(r, 4));
    SmearDoubles(n, 8);
    r := Or(r, ShiftRight(r, 8));
    SmearDoubles(n, 16);
    r := Or(r, ShiftRight(r, 16));
    WordRange();
    WideSmear(n, 32);
    OnesBelowPower(n);
    Halving(TWO_32);
    NextPowerOfTwoIsLeast(i, TWO_32 / 2);
    r := Wrap(r + 1);
  }
}
