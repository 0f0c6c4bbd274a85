/** 32-bit unsigned arithmetic as the C++ code performs it: every product and sum is reduced
    modulo 2^32, and masking with `capacity - 1` is a bitwise conjunction. */
module Words {

  const TWO_32: nat := 0x1_0000_0000

  function Wrap(x: nat): (r: nat)
    ensures r < TWO_32
    ensures x < TWO_32 ==> r == x
  {
    x % TWO_32
  }

  /** Bitwise conjunction, one bit at a time. */
  function And(x: nat, y: nat): nat
    decreases x
  {
    if x == 0 || y == 0 then 0
    else (if x % 2 == 1 && y % 2 == 1 then 1 else 0) + 2 * And(x / 2, y / 2)
  }

  function Power(k: nat): (n: nat)
    ensures n > 0
  {
    if k == 0 then 1 else 2 * Power(k - 1)
  }

  ghost predicate IsPowerOfTwo(n: nat) {
    exists k: nat :: n == Power(k)
  }

  lemma Doubling(n: nat)
    requires IsPowerOfTwo(n)
    ensures IsPowerOfTwo(2 * n)
  {
    var k: nat :| n == Power(k);
    assert 2 * n == Power(k + 1);
  }

  lemma Halving(n: nat)
    requires IsPowerOfTwo(n) && n > 1
    ensures n == 2 * (n / 2) && IsPowerOfTwo(n / 2)
  {
    var k: nat :| n == Power(k);
    assert n / 2 == Power(k - 1);
  }

  lemma OneIsPowerOfTwo()
    ensures IsPowerOfTwo(1)
  {
    assert 1 == Power(0);
  }

  lemma MultipleInRangeIsZero(c: int, k: int)
    requires -c < c * k < c
    ensures k == 0
  {
  }

  lemma RemainderUnique(x: nat, c: nat, q: nat, r: nat)
    requires c > 0 && x == c * q + r && r < c
    ensures x % c == r
  {
    var k := x / c - q;
    assert c * (x / c) == c * q + c * k;
    MultipleInRangeIsZero(c, k);
  }

  lemma AndOdd(x: nat, h: nat)
    requires h > 0
    ensures And(x, 2 * h - 1) == x % 2 + 2 * And(x / 2, h - 1)
  {
  }

  /** Masking with a power of two minus one is reduction modulo that power. */
  lemma {:induction false} MaskIsRemainder(x: nat, c: nat)
    requires IsPowerOfTwo(c)
    ensures And(x, c - 1) == x % c
    decreases c
  {
    if c > 1 {
      var h := c / 2;
      Halving(c);
      MaskIsRemainder(x / 2, h);
      AndOdd(x, h);
      MaskStep(x, h);
    }
  }

  lemma MaskStep(x: nat, h: nat)
    requires h > 0
    ensures x % (2 * h) == x % 2 + 2 * ((x / 2) % h)
  {
    var q, b := (x / 2) / h, (x / 2) % h;
    assert x / 2 == h * q + b;
    assert x == 2 * (h * q + b) + x % 2;
    assert 2 * (h * q) == (2 * h) * q;
    RemainderUnique(x, 2 * h, q, 2 * b + x % 2);
  }

  lemma {:induction false} PowersDivideWords(c: nat) returns (d: nat)
    requires IsPowerOfTwo(c) && c <= TWO_32
    ensures TWO_32 == c * d
    decreases TWO_32 - c
  {
    if c == TWO_32 {
      d := 1;
    } else {
      WordRange();
      PowersOfTwoAreNested(c, TWO_32);
      Doubling(c);
      var e := PowersDivideWords(2 * c);
      d := 2 * e;
    }
  }

  lemma WordRange()
    ensures TWO_32 == Power(32) && IsPowerOfTwo(TWO_32)
  {
    OneIsPowerOfTwo();
    var n := 1;
    var k := 0;
    while k < 32
      invariant 0 <= k <= 32 && n == Power(k)
    {
      n, k := 2 * n, k + 1;
    }
    assert Power(8) == 0x100 && Power(16) == 0x1_0000 && Power(24) == 0x100_0000;
  }

  /** Truncating to 32 bits and masking keeps the low bits of the word. */
  lemma LowBits(x: nat, c: nat)
    requires IsPowerOfTwo(c) && c <= TWO_32
    ensures And(Wrap(x), c - 1) == x % c
  {
    MaskIsRemainder(Wrap(x), c);
    var d := PowersDivideWords(c);
    NestedRemainder(x, TWO_32, c, d);
  }

  lemma NestedRemainder(x: nat, m: nat, c: nat, d: nat)
    requires m == c * d && c > 0 && d > 0
    ensures (x % m) % c == x % c
  {
    var q, r := x / m, x % m;
    var a, b := d * q, r / c;
    Reassociate(c, d, q);
    Distribute(c, a, b);
    assert x == c * (a + b) + r % c;
    RemainderUnique(x, c, a + b, r % c);
  }

  lemma Reassociate(c: nat, d: nat, q: nat)
    ensures (c * d) * q == c * (d * q)
  {
  }

  lemma Distribute(c: nat, a: nat, b: nat)
    ensures c * (a + b) == c * a + c * b
  {
  }

  lemma {:induction false} PowersOfTwoAreNested(a: nat, b: nat)
    requires IsPowerOfTwo(a) && IsPowerOfTwo(b) && a < b
    ensures 2 * a <= b
    decreases b
  {
    Halving(b);
    if a > 1 {
      Halving(a);
      PowersOfTwoAreNested(a / 2, b / 2);
    }
  }
}

/** The bucket computation of the hash map (`HashIndex`) and the masked probe step. */
module HashIndex {
  import opened Words

  /** `h ^= h >> 33` */
  function XorShift(h: bv64): bv64 {
    h ^ (h >> 33)
  }

  function Scale(h: bv64): bv64 {
    h * 0xff51_afd7_ed55_8ccd
  }

  function Unscale(h: bv64): bv64 {
    h * 0x4f74_430c_22a5_4005
  }

  function Finalize(h: bv64): bv64 {
    XorShift(Scale(XorShift(h)))
  }

  function Unfinalize(h: bv64): bv64 {
    XorShift(Unscale(XorShift(h)))
  }

  predicate IsXorShift(h: bv64, r: bv64) {
    r == h ^ (h >> 33)
  }

  lemma XorShiftStep(h: bv64)
    ensures IsXorShift(h, XorShift(h))
  {
  }

  lemma XorShiftTwice(h: bv64, m: bv64, r: bv64)
    requires IsXorShift(h, m) && IsXorShift(m, r)
    ensures r == h
  {
  }

  lemma XorShiftInvolution(h: bv64)
    ensures XorShift(XorShift(h)) == h
  {
    XorShiftStep(h);
    XorShiftStep(XorShift(h));
    XorShiftTwice(h, XorShift(h), XorShift(XorShift(h)));
  }

  predicate IsScaled(h: bv64, r: bv64) {
    r == h * 0xff51_afd7_ed55_8ccd
  }

  predicate IsUnscaled(h: bv64, r: bv64) {
    r == h * 0x4f74_430c_22a5_4005
  }

  lemma ScaleStep(h: bv64)
    ensures IsScaled(h, Scale(h))
  {
  }

  lemma UnscaleStep(h: bv64)
    ensures IsUnscaled(h, Unscale(h))
  {
  }

  lemma ScaledBack(h: bv64, m: bv64, r: bv64)
    requires IsScaled(h, m) && IsUnscaled(m, r)
    ensures r == h
  {
  }

  lemma UnscaledBack(h: bv64, m: bv64, r: bv64)
    requires IsUnscaled(h, m) && IsScaled(m, r)
    ensures r == h
  {
  }

  lemma ScaleInvertible(h: bv64)
    ensures Unscale(Scale(h)) == h
    ensures Scale(Unscale(h)) == h
  {
    ScaleStep(h);
    UnscaleStep(Scale(h));
    ScaledBack(h, Scale(h), Unscale(Scale(h)));
    UnscaleStep(h);
    ScaleStep(Unscale(h));
    UnscaledBack(h, Unscale(h), Scale(Unscale(h)));
  }

  /** The finalizer loses nothing: it is a bijection on 64-bit words, and `Unfinalize` is its inverse. */
  lemma {:induction false} FinalizerBijective(h: bv64)
    ensures Unfinalize(Finalize(h)) == h
    ensures Finalize(Unfinalize(h)) == h
  {
    XorShiftInvolution(Scale(XorShift(h)));
    XorShiftInvolution(Unscale(XorShift(h)));
    ScaleInvertible(XorShift(h));
    XorShiftInvolution(h);
  }

  /** Some values of the finalizer: low hashes spread over the whole word, and the top bit reaches the low ones. */
  lemma FinalizerValues()
    ensures Finalize(0) == 0
    ensures Finalize(1) == 0xff51_afd7_92fd_5b26
    ensures Finalize(2) == 0xfea3_5faf_a5fa_b64d
    ensures Finalize(0x8000_0000_0000_0000) == 0x7b55_6333_7daa_b199
    ensures Finalize(0x0123_4567_89ab_cdef) == 0x2aee_46b7_eb4a_5ff7
  {
  }

  /** The bucket of a raw hash: the low 32 bits of the finalized word, masked with `capacity - 1`. */
  function Bucket(h: bv64, capacity: nat): (r: nat)
    requires IsPowerOfTwo(capacity)
    ensures r < capacity
  {
    MaskIsRemainder(Wrap(Finalize(h) as nat), capacity);
    And(Wrap(Finalize(h) as nat), capacity - 1)
  }

  /** The bucket is given by the low bits of the finalized word alone. */
  lemma BucketIsLowBits(h: bv64, capacity: nat)
    requires IsPowerOfTwo(capacity) && capacity <= TWO_32
    ensures Bucket(h, capacity) == (Finalize(h) as nat) % capacity
  {
    LowBits(Finalize(h) as nat, capacity);
  }

  /** One probe step, `(idx + 1u) & mask`. */
  function NextSlot(idx: nat, capacity: nat): nat
    requires capacity > 0
  {
    And(Wrap(idx + 1), capacity - 1)
  }

  lemma NextSlotIsCyclic(idx: nat, capacity: nat)
    requires IsPowerOfTwo(capacity) && capacity < TWO_32 && idx < capacity
    ensures NextSlot(idx, capacity) == if idx + 1 == capacity then 0 else idx + 1
  {
    MaskIsRemainder(Wrap(idx + 1), capacity);
    var turns := if idx + 1 == capacity then 1 else 0;
    RemainderUnique(idx + 1, capacity, turns, if turns == 1 then 0 else idx + 1);
  }

  /** The slot reached after `steps` probe steps from `home`. */
  function Probe(home: nat, steps: nat, capacity: nat): nat
    requires capacity > 0
  {
    if steps == 0 then home else NextSlot(Probe(home, steps - 1, capacity), capacity)
  }

  /** Number of probe steps from `home` to `slot`. */
  function Distance(home: nat, slot: nat, capacity: nat): int {
    if slot >= home then slot - home else slot + capacity - home
  }

  lemma {:induction false} ProbeIsCyclic(home: nat, steps: nat, capacity: nat)
    requires IsPowerOfTwo(capacity) && capacity < TWO_32
    requires home < capacity && steps < capacity
    ensures Probe(home, steps, capacity) == if home + steps < capacity then home + steps else home + steps - capacity
  {
    if steps > 0 {
      ProbeIsCyclic(home, steps - 1, capacity);
      NextSlotIsCyclic(Probe(home, steps - 1, capacity), capacity);
    }
  }

  /** A probe sequence stays inside the table and, within one cycle, visits every slot exactly once. */
  lemma ProbeVisitsEverySlotOnce(home: nat, slot: nat, capacity: nat)
    requires IsPowerOfTwo(capacity) && capacity < TWO_32
    requires home < capacity && slot < capacity
    ensures 0 <= Distance(home, slot, capacity) < capacity
    ensures forall steps: nat :: steps < capacity ==>
      (Probe(home, steps, capacity) == slot <==> steps == Distance(home, slot, capacity))
  {
    forall steps: nat | steps < capacity
      ensures Probe(home, steps, capacity) == slot <==> steps == Distance(home, slot, capacity)
    {
      ProbeIsCyclic(home, steps, capacity);
    }
  }
}
