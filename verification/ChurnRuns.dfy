/** How much churn a map stands, exactly. With a hash that sends consecutive keys to consecutive slots, a window of live
    keys can slide through the table without ever reusing a tombstone; such runs meet the bounds that hold for every
    hash. */
module ChurnRuns {
  import opened Wrappers

  import opened HashIndex
  import opened LimitRuns
  import opened LoadPolicy
  import opened MapRuns
  import opened ProbeTable
  import opened TableSteps
  import opened Words

  // ----- A map with consecutive home slots -----

  /** A 64-bit key; 0 is the empty key and 1 the tombstone. */
  type Key = k: nat | k < 0x1_0000_0000_0000_0000

  /** The 64-bit word with this value, bit by bit. */
  function WordOf(x: nat): bv64 {
    if x == 0 then 0 else WithBit(WordOf(x / 2), x % 2 == 1)
  }

  function WithBit(w: bv64, bit: bool): bv64 {
    if bit then (w << 1) | 1 else w << 1
  }

  lemma TopBitClear(w: bv64)
    requires w as nat < 0x8000_0000_0000_0000
    ensures w & 0x8000_0000_0000_0000 == 0
  {
  }

  lemma ShiftedValue(w: bv64)
    requires w & 0x8000_0000_0000_0000 == 0
    ensures (w << 1) as nat == 2 * (w as nat)
  {
  }

  lemma ShiftedValueOdd(w: bv64)
    requires w & 0x8000_0000_0000_0000 == 0
    ensures ((w << 1) | 1) as nat == 2 * (w as nat) + 1
  {
  }

  function Value(w: bv64): nat {
    w as nat
  }

  lemma WithBitValue(w: bv64, bit: bool)
    requires Value(w) < 0x8000_0000_0000_0000
    ensures Value(WithBit(w, bit)) == 2 * Value(w) + if bit then 1 else 0
  {
    TopBitClear(w);
    ShiftedValue(w);
    ShiftedValueOdd(w);
  }

  lemma ZeroValue()
    ensures Value(0) == 0
  {
  }

  lemma {:induction false} WordValue(k: Key)
    ensures Value(WordOf(k)) == k
  {
    hide WithBit, Value;
    if k == 0 {
      ZeroValue();
    } else {
      WordValue(k / 2);
      WithBitValue(WordOf(k / 2), k % 2 == 1);
    }
  }

  /** Integer keys under a hash that undoes the finalizer. */
  function Consecutive(): Traits<Key, int> {
    Traits(k => Unfinalize(WordOf(k)), (a, b) => a == b, 0, 1, 0, 0)
  }

  lemma ConsecutiveIsLawful()
    ensures Lawful(Consecutive())
  {
  }

  lemma NotSentinel(k: Key)
    requires k >= 2
    ensures !Sentinel(Consecutive(), k)
  {
  }

  /** The home slot of a key is the key modulo the capacity. */
  lemma HomeIsRemainder(k: Key, capacity: nat)
    requires IsPowerOfTwo(capacity) && capacity <= MAX_CAPACITY
    ensures Home(Consecutive(), k, capacity) == k % capacity
  {
    var w := WordOf(k);
    BucketIsLowBits(Unfinalize(w), capacity);
    FinalizerBijective(w);
    WordValue(k);
  }

  // ----- Rebuilding keys with different homes -----

  /** Some live entry among the first `i` has its home at slot `j`. */
  ghost predicate HomeTaken<K, V>(tr: Traits<K, V>, s: seq<Entry<K, V>>, i: nat, capacity: nat, j: nat)
    requires i <= |s| && IsPowerOfTwo(capacity)
  {
    exists q :: 0 <= q < i && Live(tr, s[q]) && Home(tr, s[q].key, capacity) == j
  }

  ghost predicate HomesDiffer<K, V>(tr: Traits<K, V>, s: seq<Entry<K, V>>, capacity: nat)
    requires IsPowerOfTwo(capacity)
  {
    forall p, q :: 0 <= p < q < |s| && Live(tr, s[p]) && Live(tr, s[q]) ==>
      Home(tr, s[p].key, capacity) != Home(tr, s[q].key, capacity)
  }

  lemma EmptyHomeIsFree<K, V>(tr: Traits<K, V>, s: seq<Entry<K, V>>, home: nat)
    requires home < |s| && !Live(tr, s[home])
    ensures FirstFree(tr, s, home) == home
  {
    assert IsFirstFree(tr, s, home, home);
    FirstFreeIs(tr, s, home, home);
  }

  /** A rebuild of keys with different homes uses their home slots only. */
  lemma {:induction false} RefillUsesHomes<K(!new), V>(tr: Traits<K, V>, s: seq<Entry<K, V>>, i: nat, capacity: nat)
    requires i <= |s| && IsPowerOfTwo(capacity) && HomesDiffer(tr, s, capacity)
    ensures forall j ::
      0 <= j < capacity && Used(tr, Refill(tr, s, i, capacity)[j]) ==> HomeTaken(tr, s, i, capacity, j)
  {
    if i > 0 {
      RefillUsesHomes(tr, s, i - 1, capacity);
      var t := Refill(tr, s, i - 1, capacity);
      if Live(tr, s[i - 1]) {
        var h := Home(tr, s[i - 1].key, capacity);
        assert !HomeTaken(tr, s, i - 1, capacity, h);
        EmptyHomeIsFree(tr, t, h);
        assert HomeTaken(tr, s, i, capacity, h);
      }
      forall j | 0 <= j < capacity && Used(tr, Refill(tr, s, i, capacity)[j])
        ensures HomeTaken(tr, s, i, capacity, j)
      {
        assert HomeTaken(tr, s, i - 1, capacity, j) ==> HomeTaken(tr, s, i, capacity, j);
      }
    }
  }

  // ----- A window of live keys -----

  /** Keys stay far below 2^64. */
  const LAST: nat := 0x1_0000_0000

  /** The live keys are those from `a` up to `b`, exactly the slots that keys from `r` on have gone to are occupied, and
      the home slots of the next keys are empty. */
  ghost predicate Window(t: Table<Key, int>, a: nat, b: nat, r: nat) {
    && TableInvariant(Consecutive(), t) && 2 <= r <= a <= b <= LAST
    && t.size == b - a && t.occupied == b - r
    && Holding(t, a, b) && Ahead(t.slots, b, r)
  }

  ghost predicate Holding(t: Table<Key, int>, a: nat, b: nat) {
    forall k :: k in Contents(Consecutive(), t.slots) <==> a <= k < b
  }

  ghost predicate Ahead(s: seq<Entry<Key, int>>, b: nat, r: nat) {
    IsPowerOfTwo(|s|) ==>
      forall k: Key :: b <= k < r + |s| ==> !Used(Consecutive(), s[Home(Consecutive(), k, |s|)])
  }

  lemma RemaindersDiffer(x: nat, y: nat, c: nat)
    requires 0 < y - x < c
    ensures x % c != y % c
  {
    if x % c == y % c {
      var d := y / c - x / c;
      assert y - x == c * (y / c) - c * (x / c);
      MulDistributes(c, y / c, x / c);
      MultipleInRangeIsZero(c, d);
    }
  }

  lemma MulDistributes(c: int, p: int, q: int)
    ensures c * p - c * q == c * (p - q)
  {
  }

  lemma HomesOfNeighbours(x: Key, y: Key, c: nat)
    requires IsPowerOfTwo(c) && c <= MAX_CAPACITY && 0 < y - x < c
    ensures Home(Consecutive(), x, c) != Home(Consecutive(), y, c)
  {
    HomeIsRemainder(x, c);
    HomeIsRemainder(y, c);
    RemaindersDiffer(x, y, c);
  }

  lemma PresentIffHeld(t: Table<Key, int>, a: nat, b: nat, k: Key)
    requires TableInvariant(Consecutive(), t) && Holding(t, a, b)
    ensures Present(Consecutive(), t.slots, k) <==> a <= k < b
    ensures Stores(Consecutive(), Contents(Consecutive(), t.slots), k) <==> a <= k < b
  {
    var tr, m := Consecutive(), Contents(Consecutive(), t.slots);
    SlotsAgreeWithMap(tr, t, k);
    if a <= k < b {
      assert k in m && tr.equal(k, k);
    }
    if Stores(tr, m, k) {
      var q :| q in m && tr.equal(q, k);
      assert q == k;
    }
  }

  /** The key of a live slot is held. */
  lemma LiveIsHeld(t: Table<Key, int>, a: nat, b: nat, i: nat)
    requires TableInvariant(Consecutive(), t) && Holding(t, a, b) && i < |t.slots| && Live(Consecutive(), t.slots[i])
    ensures a <= t.slots[i].key < b
  {
    assert Hit(Consecutive(), t.slots, t.slots[i].key, i);
    PresentIffHeld(t, a, b, t.slots[i].key);
  }

  lemma LiveKeysDiffer<K(!new), V>(tr: Traits<K, V>, s: seq<Entry<K, V>>, p: nat, q: nat)
    requires Lawful(tr) && Distinct(tr, s) && p < q < |s| && Live(tr, s[p]) && Live(tr, s[q])
    ensures s[p].key != s[q].key
  {
    if s[p].key == s[q].key {
      SameKeySameSlot(tr, s, p, q);
    }
  }

  lemma SameKeySameSlot<K(!new), V>(tr: Traits<K, V>, s: seq<Entry<K, V>>, p: nat, q: nat)
    requires Lawful(tr) && Distinct(tr, s) && p < |s| && q < |s| && Live(tr, s[p]) && Live(tr, s[q])
    requires s[p].key == s[q].key
    ensures p == q
  {
    assert Hit(tr, s, s[q].key, p);
  }

  lemma HeldHomesDiffer(t: Table<Key, int>, a: nat, b: nat, c: nat)
    requires TableInvariant(Consecutive(), t) && Holding(t, a, b) && a <= b
    requires IsPowerOfTwo(c) && c <= MAX_CAPACITY && b - a <= c
    ensures HomesDiffer(Consecutive(), t.slots, c)
  {
    hide Holding, Home, Chained;
    var s := t.slots;
    forall p, q | 0 <= p < q < |s| && Live(Consecutive(), s[p]) && Live(Consecutive(), s[q])
      ensures Home(Consecutive(), s[p].key, c) != Home(Consecutive(), s[q].key, c)
    {
      LiveIsHeld(t, a, b, p);
      LiveIsHeld(t, a, b, q);
      LiveKeysDiffer(Consecutive(), s, p, q);
      var x, y := s[p].key, s[q].key;
      if x < y {
        HomesOfNeighbours(x, y, c);
      } else {
        HomesOfNeighbours(y, x, c);
      }
    }
  }

  /** A rebuild leaves exactly the live keys behind. */
  lemma WindowRebuilt(t: Table<Key, int>, a: nat, b: nat, r: nat, c: nat)
    requires Window(t, a, b, r)
    requires IsPowerOfTwo(c) && INITIAL_CAPACITY <= c <= MAX_CAPACITY && 4 * t.size < 3 * c
    ensures Window(Rebuilt(Consecutive(), t, c), a, b, a) && |Rebuilt(Consecutive(), t, c).slots| == c
  {
    hide TableInvariant, Home, Refill;
    var tr, s := Consecutive(), t.slots;
    var u := Rebuilt(tr, t, c);
    RebuiltFacts(tr, t, c);
    HeldHomesDiffer(t, a, b, c);
    RefillUsesHomes(tr, s, |s|, c);
    forall k: Key | b <= k < a + c ensures !Used(tr, u.slots[Home(tr, k, c)]) {
      if HomeTaken(tr, s, |s|, c, Home(tr, k, c)) {
        var q :| 0 <= q < |s| && Live(tr, s[q]) && Home(tr, s[q].key, c) == Home(tr, k, c);
        LiveIsHeld(t, a, b, q);
        HomesOfNeighbours(s[q].key, k, c);
      }
    }
  }

  /** Preparing an insert keeps the window. */
  lemma WindowPrepared(t: Table<Key, int>, a: nat, b: nat, r: nat)
    requires Window(t, a, b, r) && Fits(|t.slots|, t.size, t.occupied)
    ensures Window(Prepared(Consecutive(), t), a, b, if Decide(|t.slots|, t.size, t.occupied) == Keep then r else a)
  {
    hide TableInvariant, Window, Home;
    WindowInvariant(t, a, b, r);
    DecisionFacts(|t.slots|, t.size, t.occupied);
    match Decide(|t.slots|, t.size, t.occupied)
    case Keep =>
    case RebuildAt(c) => WindowRebuilt(t, a, b, r, c);
  }

  lemma WindowInvariant(t: Table<Key, int>, a: nat, b: nat, r: nat)
    requires Window(t, a, b, r)
    ensures TableInvariant(Consecutive(), t) && Balanced(|t.slots|, t.size, t.occupied)
    ensures 2 <= r <= a <= b <= LAST && t.size == b - a && t.occupied == b - r
  {
  }

  /** Storing the next key: it finds its home slot empty. */
  lemma WindowStoredNext(u: Table<Key, int>, a: nat, b: nat, r: nat, v: int)
    requires Window(u, a, b, r) && u.slots != [] && Roomy(|u.slots|, u.occupied) && b < LAST
    ensures Window(Stored(Consecutive(), u, b, v), a, b + 1, r)
    ensures |Stored(Consecutive(), u, b, v).slots| == |u.slots|
  {
    hide TableInvariant, Home;
    var tr, s, c := Consecutive(), u.slots, |u.slots|;
    WindowInvariant(u, a, b, r);
    PresentIffHeld(u, a, b, b);
    StoredFacts(tr, u, b, v);
    var h := Home(tr, b, c);
    EmptyHomeIsFree(tr, s, h);
    assert Stored(tr, u, b, v) == Table(s[h := Entry(b, v)], u.size + 1, u.occupied + 1);
    AheadOfNext(s, b, r, Entry(b, v));
  }

  lemma AheadOfNext(s: seq<Entry<Key, int>>, b: Key, r: nat, e: Entry<Key, int>)
    requires Ahead(s, b, r) && IsPowerOfTwo(|s|) && |s| <= MAX_CAPACITY && r <= b
    ensures Ahead(s[Home(Consecutive(), b, |s|) := e], b + 1, r)
  {
    hide Home;
    forall k: Key | b + 1 <= k < r + |s|
      ensures Home(Consecutive(), k, |s|) != Home(Consecutive(), b, |s|)
    {
      HomesOfNeighbours(b, k, |s|);
    }
  }

  /** Storing a key that is held changes a value only. */
  lemma WindowStoredHeld(u: Table<Key, int>, a: nat, b: nat, r: nat, k: Key, v: int)
    requires Window(u, a, b, r) && u.slots != [] && Roomy(|u.slots|, u.occupied) && a <= k < b
    ensures Window(Stored(Consecutive(), u, k, v), a, b, r)
    ensures |Stored(Consecutive(), u, k, v).slots| == |u.slots|
  {
    hide TableInvariant, Home;
    var tr := Consecutive();
    WindowInvariant(u, a, b, r);
    PresentIffHeld(u, a, b, k);
    StoredFacts(tr, u, k, v);
  }

  /** Erasing the oldest key leaves a tombstone in its slot. */
  lemma WindowErased(t: Table<Key, int>, a: nat, b: nat, r: nat)
    requires Window(t, a, b, r) && a < b
    ensures Window(Erased(Consecutive(), t, a), a + 1, b, r)
    ensures |Erased(Consecutive(), t, a).slots| == |t.slots|
  {
    hide TableInvariant, Home;
    var tr := Consecutive();
    WindowInvariant(t, a, b, r);
    PresentIffHeld(t, a, b, a);
    ErasedFacts(tr, t, a);
  }

  // ----- Runs of a window -----

  /** A rehash-free run to a window with this capacity and peak. */
  ghost predicate Reached(ops: seq<Op<Key, int>>, t: Table<Key, int>, l: Ledger, a: nat, b: nat, r: nat,
                          capacity: nat, peak: nat)
  {
    && Run(Consecutive(), ops, t, l) && RehashFree(ops)
    && Window(t, a, b, r) && |t.slots| == capacity && l.peak == peak && b - a <= peak
  }

  lemma ReachedInvariant(ops: seq<Op<Key, int>>, t: Table<Key, int>, l: Ledger, a: nat, b: nat, r: nat,
                         capacity: nat, peak: nat)
    requires Reached(ops, t, l, a, b, r, capacity, peak)
    ensures TableInvariant(Consecutive(), t) && Balanced(capacity, b - a, b - r)
    ensures 2 <= r <= a <= b <= LAST && t.size == b - a && t.occupied == b - r && |t.slots| == capacity
    ensures Run(Consecutive(), ops, t, l) && Window(t, a, b, r) && l.peak == peak && b - a <= peak
  {
    WindowInvariant(t, a, b, r);
  }

  lemma ReachedCounters(ops: seq<Op<Key, int>>, t: Table<Key, int>, l: Ledger, a: nat, b: nat, r: nat,
                        capacity: nat, peak: nat)
    requires Reached(ops, t, l, a, b, r, capacity, peak)
    ensures 2 <= r <= a <= b <= LAST && Balanced(capacity, b - a, b - r) && b - a <= peak
  {
    WindowInvariant(t, a, b, r);
  }

  /** The capacity after the preparation of an insert, and where its occupied slots start. */
  function PreparedCapacity(capacity: nat, size: nat, occupied: nat): nat {
    match Decide(capacity, size, occupied)
    case Keep => capacity
    case RebuildAt(c) => c
  }

  function PreparedStart(capacity: nat, a: nat, b: nat, r: nat): nat
    requires r <= a <= b
  {
    if Decide(capacity, b - a, b - r) == Keep then r else a
  }

  ghost function AfterNext(t: Table<Key, int>, b: Key): Table<Key, int> {
    if TableInvariant(Consecutive(), t) && Fits(|t.slots|, t.size, t.occupied)
    then Inserted(Consecutive(), t, b, 0) else t
  }

  lemma InsertNext(ops: seq<Op<Key, int>>, t: Table<Key, int>, l: Ledger, a: nat, b: nat, r: nat,
                   capacity: nat, peak: nat)
    returns (longer: seq<Op<Key, int>>, u: Table<Key, int>, m: Ledger)
    requires Reached(ops, t, l, a, b, r, capacity, peak) && r <= a <= b < LAST && Fits(capacity, b - a, b - r)
    ensures u == AfterNext(t, b)
    ensures Reached(longer, u, m, a, b + 1, PreparedStart(capacity, a, b, r),
                    PreparedCapacity(capacity, b - a, b - r), Max(peak, b + 1 - a))
  {
    hide TableInvariant, Window, Run, Prepared, Stored, Decide, Fits, Balanced, Lawful, Consecutive, Roomy, Sentinel;
    ReachedInvariant(ops, t, l, a, b, r, capacity, peak);
    var tr := Consecutive();
    var op: Op<Key, int> := Insert(b, 0);
    ConsecutiveIsLawful();
    NotSentinel(b);
    PreparedFacts(tr, t);
    PreparedSize(tr, t);
    WindowPrepared(t, a, b, r);
    WindowStoredNext(Prepared(tr, t), a, b, PreparedStart(capacity, a, b, r), 0);
    longer, u, m := ops + [op], Apply(tr, t, op), Charge(tr, l, t, op);
    RunsContinue(tr, ops, t, l, op);
    WindowInvariant(u, a, b + 1, PreparedStart(capacity, a, b, r));
  }

  lemma InsertHeld(ops: seq<Op<Key, int>>, t: Table<Key, int>, l: Ledger, a: nat, b: nat, r: nat,
                   capacity: nat, peak: nat)
    returns (longer: seq<Op<Key, int>>, u: Table<Key, int>, m: Ledger)
    requires Reached(ops, t, l, a, b, r, capacity, peak) && r <= a < b <= LAST && Fits(capacity, b - a, b - r)
    ensures Reached(longer, u, m, a, b, PreparedStart(capacity, a, b, r),
                    PreparedCapacity(capacity, b - a, b - r), peak)
    ensures m.inserts == l.inserts + 1 && m.scanned == l.scanned + ScanCost(capacity, b - a, b - r)
  {
    hide TableInvariant, Window, Run, Prepared, Stored, Decide, Fits, Balanced, Lawful, Consecutive, Roomy, Sentinel;
    ReachedInvariant(ops, t, l, a, b, r, capacity, peak);
    var tr := Consecutive();
    var op: Op<Key, int> := Insert(a, 0);
    ConsecutiveIsLawful();
    NotSentinel(a);
    PreparedFacts(tr, t);
    PreparedSize(tr, t);
    WindowPrepared(t, a, b, r);
    WindowStoredHeld(Prepared(tr, t), a, b, PreparedStart(capacity, a, b, r), a, 0);
    longer, u, m := ops + [op], Apply(tr, t, op), Charge(tr, l, t, op);
    RunsContinue(tr, ops, t, l, op);
    WindowInvariant(u, a, b, PreparedStart(capacity, a, b, r));
  }

  lemma EraseOldest(ops: seq<Op<Key, int>>, t: Table<Key, int>, l: Ledger, a: nat, b: nat, r: nat,
                    capacity: nat, peak: nat)
    returns (longer: seq<Op<Key, int>>, u: Table<Key, int>, m: Ledger)
    requires Reached(ops, t, l, a, b, r, capacity, peak) && a < b <= LAST
    ensures Reached(longer, u, m, a + 1, b, r, capacity, peak)
  {
    hide TableInvariant, Window, Run, Erased;
    ReachedInvariant(ops, t, l, a, b, r, capacity, peak);
    var tr := Consecutive();
    var op: Op<Key, int> := Erase(a);
    ConsecutiveIsLawful();
    WindowErased(t, a, b, r);
    longer, u, m := ops + [op], Apply(tr, t, op), Charge(tr, l, t, op);
    RunsContinue(tr, ops, t, l, op);
  }

  // ----- Phases -----

  lemma EmptyWindow() returns (ops: seq<Op<Key, int>>, t: Table<Key, int>, l: Ledger, capacity: nat)
    ensures Reached(ops, t, l, 2, 2, 2, capacity, 0) && Filled(t)
  {
    ConsecutiveIsLawful();
    ops, t, l, capacity := [], Nothing(), Ledger(0, 0, 0, 0, 0, 0), 0;
    EmptyRun(Consecutive());
  }

  /** Filling an empty map with `n` keys. */
  lemma {:induction false} FillWindow(n: nat)
    returns (ops: seq<Op<Key, int>>, t: Table<Key, int>, l: Ledger, capacity: nat)
    requires n <= FILL_LIMIT
    ensures Reached(ops, t, l, 2, 2 + n, 2, capacity, n) && Filled(t)
  {
    hide TableInvariant, Reached, Stored, Decide, Window, Inserted, Filled;
    var tr := Consecutive();
    if n == 0 {
      ops, t, l, capacity := EmptyWindow();
    } else {
      var shorter, u, m, c := FillWindow(n - 1);
      ReachedInvariant(shorter, u, m, 2, 1 + n, 2, c, n - 1);
      FilledCapacity(tr, u);
      ops, t, l := InsertNext(shorter, u, m, 2, 1 + n, 2, c, n - 1);
      capacity := PreparedCapacity(c, n - 1, n - 1);
      StillFilled(u, 1 + n);
    }
  }

  lemma StillFilled(t: Table<Key, int>, b: Key)
    requires Window(t, 2, b, 2) && Filled(t) && |t.slots| <= INSERT_LIMIT
    ensures Filled(AfterNext(t, b))
  {
    hide TableInvariant;
    PresentIffHeld(t, 2, b, b);
    FilledAfterInsert(Consecutive(), t, b, 0);
  }

  /** Occupancies below which an insert rebuilds nothing. */
  predicate BelowLimit(capacity: nat, occupied: nat) {
    if capacity <= INSERT_LIMIT then 4 * occupied < 3 * capacity else occupied < EXACT_LIMIT
  }

  lemma KeepsBelowLimit(capacity: nat, size: nat, occupied: nat)
    requires Balanced(capacity, size, occupied) && capacity > 0 && BelowLimit(capacity, occupied)
    ensures Decide(capacity, size, occupied) == Keep && Fits(capacity, size, occupied)
  {
    CapacityBands(capacity);
  }

  /** `n` rounds of erasing the oldest key and inserting the next one: the window slides and every round occupies one
      more slot. */
  lemma {:induction false} Slide(ops: seq<Op<Key, int>>, t: Table<Key, int>, l: Ledger, a: nat, b: nat, r: nat,
                                 capacity: nat, peak: nat, n: nat)
    returns (longer: seq<Op<Key, int>>, u: Table<Key, int>, m: Ledger)
    requires Reached(ops, t, l, a, b, r, capacity, peak) && capacity > 0 && r <= a < b && b + n < LAST
    requires n > 0 ==> BelowLimit(capacity, b - r + n - 1)
    ensures Reached(longer, u, m, a + n, b + n, r, capacity, peak)
    decreases n
  {
    hide Reached, BelowLimit;
    if n == 0 {
      longer, u, m := ops, t, l;
    } else {
      LowerLimit(capacity, b - r + n - 2, b - r + n - 1);
      var ops1, t1, l1 := Slide(ops, t, l, a, b, r, capacity, peak, n - 1);
      longer, u, m := SlideOnce(ops1, t1, l1, a + n - 1, b + n - 1, r, capacity, peak);
    }
  }

  lemma LowerLimit(capacity: nat, lower: nat, occupied: nat)
    requires lower <= occupied && BelowLimit(capacity, occupied)
    ensures BelowLimit(capacity, lower)
  {
  }

  lemma SlideOnce(ops: seq<Op<Key, int>>, t: Table<Key, int>, l: Ledger, a: nat, b: nat, r: nat,
                  capacity: nat, peak: nat)
    returns (longer: seq<Op<Key, int>>, u: Table<Key, int>, m: Ledger)
    requires Reached(ops, t, l, a, b, r, capacity, peak) && capacity > 0 && r <= a < b < LAST
    requires BelowLimit(capacity, b - r)
    ensures Reached(longer, u, m, a + 1, b + 1, r, capacity, peak)
  {
    hide Reached, Decide, Fits, BelowLimit, Balanced;
    var ops1, t1, l1 := EraseOldest(ops, t, l, a, b, r, capacity, peak);
    ReachedCounters(ops, t, l, a, b, r, capacity, peak);
    ReachedCounters(ops1, t1, l1, a + 1, b, r, capacity, peak);
    KeepsBelowLimit(capacity, b - a - 1, b - r);
    longer, u, m := InsertNext(ops1, t1, l1, a + 1, b, r, capacity, peak);
  }

  /** `n` erases of the oldest key. */
  lemma {:induction false} Shrink(ops: seq<Op<Key, int>>, t: Table<Key, int>, l: Ledger, a: nat, b: nat, r: nat,
                                  capacity: nat, peak: nat, n: nat)
    returns (longer: seq<Op<Key, int>>, u: Table<Key, int>, m: Ledger)
    requires Reached(ops, t, l, a, b, r, capacity, peak) && a + n <= b <= LAST
    ensures Reached(longer, u, m, a + n, b, r, capacity, peak)
    decreases n
  {
    hide Reached;
    if n == 0 {
      longer, u, m := ops, t, l;
    } else {
      var ops1, t1, l1 := Shrink(ops, t, l, a, b, r, capacity, peak, n - 1);
      longer, u, m := EraseOldest(ops1, t1, l1, a + n - 1, b, r, capacity, peak);
    }
  }

  /** `n` more keys for a 2^31-slot table without tombstones. */
  lemma {:induction false} FillLargest(ops: seq<Op<Key, int>>, t: Table<Key, int>, l: Ledger, a: nat, b: nat, n: nat)
    returns (longer: seq<Op<Key, int>>, u: Table<Key, int>, m: Ledger)
    requires 2 <= a <= b && b - a + n < FILL_LIMIT && b + n < LAST
    requires Reached(ops, t, l, a, b, a, MAX_CAPACITY, b - a)
    ensures Reached(longer, u, m, a, b + n, a, MAX_CAPACITY, b + n - a)
    decreases n
  {
    hide Reached;
    if n == 0 {
      longer, u, m := ops, t, l;
    } else {
      var ops1, t1, l1 := FillLargest(ops, t, l, a, b, n - 1);
      InPlaceDecision(MAX_CAPACITY, b - a + n - 1);
      longer, u, m := InsertNext(ops1, t1, l1, a, b + n - 1, a, MAX_CAPACITY, b + n - 1 - a);
    }
  }

  // ----- Without any rehash, to 2^31 slots -----

  lemma FilledTo(t: Table<Key, int>)
    requires TableInvariant(Consecutive(), t) && Filled(t) && t.size == MODEST_SIZE
    ensures |t.slots| == EXACT_LIMIT
  {
    LimitsArePowersOfTwo();
    CapacityBands(|t.slots|);
    if |t.slots| < EXACT_LIMIT {
      PowersOfTwoAreNested(|t.slots|, EXACT_LIMIT);
    }
  }

  /** With no more than `MODEST_SIZE` keys live at a time, sliding alone doubles the table to 2^31 slots. */
  lemma SlideToLargest() returns (ops: seq<Op<Key, int>>, t: Table<Key, int>, l: Ledger, a: nat)
    ensures a < 0x2800_0000 && Reached(ops, t, l, a, a + MODEST_SIZE, a, MAX_CAPACITY, MODEST_SIZE)
  {
    hide Reached, TableInvariant, Filled, Window, Run;
    var n := MODEST_SIZE;
    var ops1, t1, l1, c := FillWindow(n);
    ReachedInvariant(ops1, t1, l1, 2, 2 + n, 2, c, n);
    FilledTo(t1);
    var a1: nat := 2 + 0x400_0000;
    var ops2, t2, l2 := Slide(ops1, t1, l1, 2, 2 + n, 2, EXACT_LIMIT, n, 0x400_0000);
    assert Decide(EXACT_LIMIT, n, n + 0x400_0000) == RebuildAt(INSERT_LIMIT);
    var ops3, t3, l3 := InsertHeld(ops2, t2, l2, a1, a1 + n, 2, EXACT_LIMIT, n);
    a := a1 + 0x1C00_0000;
    var ops4, t4, l4 := Slide(ops3, t3, l3, a1, a1 + n, a1, INSERT_LIMIT, n, 0x1C00_0000);
    assert Decide(INSERT_LIMIT, n, n + 0x1C00_0000) == RebuildAt(MAX_CAPACITY);
    ops, t, l := InsertHeld(ops4, t4, l4, a, a + n, a1, INSERT_LIMIT, n);
  }

  /** From there any peak up to 0x3000_0000 can be filled in. */
  lemma LargestAtPeak(peak: nat) returns (ops: seq<Op<Key, int>>, t: Table<Key, int>, l: Ledger, a: nat)
    requires MODEST_SIZE <= peak < FILL_LIMIT
    ensures 2 <= a < 0x2800_0000 && Reached(ops, t, l, a, a + peak, a, MAX_CAPACITY, peak)
  {
    hide Reached, Balanced;
    var ops1, t1, l1, a1 := SlideToLargest();
    a := a1;
    ReachedCounters(ops1, t1, l1, a, a + MODEST_SIZE, a, MAX_CAPACITY, MODEST_SIZE);
    ops, t, l := FillLargest(ops1, t1, l1, a, a + MODEST_SIZE, peak - MODEST_SIZE);
  }

  // ----- The exact boundaries -----

  /** The promise about churn: at most 8 slots or 16/5 of the peak live size. */
  predicate InProportion<K, V>(t: Table<K, V>, l: Ledger) {
    |t.slots| <= 8 || 5 * |t.slots| <= 16 * l.peak
  }

  /** Churn cannot inflate the table beyond 16/5 of a peak of `peak` live keys: true of every rehash-free run exactly
      below five eighths of 2^29 and from five eighths of 2^30 on. Where it holds, it holds for every hash
      (`ChurnCannotInflate`). */
  lemma ChurnBoundIff(peak: nat)
    ensures (peak < MODEST_SIZE || peak >= 2 * MODEST_SIZE) <==>
      forall ops, t, l :: Run(Consecutive(), ops, t, l) && RehashFree(ops) && l.peak == peak ==> InProportion(t, l)
  {
    hide Run, Reached;
    if peak < MODEST_SIZE || peak >= 2 * MODEST_SIZE {
      ConsecutiveIsLawful();
      forall ops, t, l | Run(Consecutive(), ops, t, l) && RehashFree(ops) && l.peak == peak ensures InProportion(t, l) {
        ChurnCannotInflate(Consecutive(), ops, t, l);
      }
    } else {
      var ops, t, l, a := LargestAtPeak(peak);
      ReachedInvariant(ops, t, l, a, a + peak, a, MAX_CAPACITY, peak);
      ReachedRehashFree(ops, t, l, a, a + peak, a, MAX_CAPACITY, peak);
    }
  }

  lemma ReachedRehashFree(ops: seq<Op<Key, int>>, t: Table<Key, int>, l: Ledger, a: nat, b: nat, r: nat,
                          capacity: nat, peak: nat)
    requires Reached(ops, t, l, a, b, r, capacity, peak)
    ensures RehashFree(ops)
  {
  }

  /** A rehash-free run with this peak after which no insert is possible, not even an update. */
  lemma StuckAtPeak(peak: nat) returns (ops: seq<Op<Key, int>>, t: Table<Key, int>, l: Ledger)
    requires MODEST_SIZE <= peak <= FILL_LIMIT
    ensures Run(Consecutive(), ops, t, l) && RehashFree(ops) && l.peak == peak
    ensures TableInvariant(Consecutive(), t) && !Fits(|t.slots|, t.size, t.occupied)
  {
    hide Run, Reached, TableInvariant, Window, Filled;
    var a: nat;
    var b: nat;
    var r: nat;
    var c: nat;
    if peak == FILL_LIMIT {
      a, b, r := 2, 2 + peak, 2;
      ops, t, l, c := FillWindow(peak);
      ReachedInvariant(ops, t, l, a, b, r, c, peak);
      FilledTooFar(Consecutive(), t);
    } else {
      ops, t, l, a, b, r := StuckWindow(peak);
      c := MAX_CAPACITY;
      ReachedInvariant(ops, t, l, a, b, r, c, peak);
    }
    ReachedRehashFree(ops, t, l, a, b, r, c, peak);
  }

  lemma StuckWindow(peak: nat)
    returns (ops: seq<Op<Key, int>>, t: Table<Key, int>, l: Ledger, a: nat, b: nat, r: nat)
    requires MODEST_SIZE <= peak < FILL_LIMIT
    ensures Reached(ops, t, l, a, b, r, MAX_CAPACITY, peak) && r <= a <= b && !Fits(MAX_CAPACITY, b - a, b - r)
  {
    hide Reached;
    var ops1, t1, l1, a1 := LargestAtPeak(peak);
    r := a1;
    if peak < EXACT_LIMIT {
      // slide until a quarter of the slots is occupied
      var n := EXACT_LIMIT - peak;
      ops, t, l := Slide(ops1, t1, l1, a1, a1 + peak, a1, MAX_CAPACITY, peak, n);
      a, b := a1 + n, a1 + peak + n;
    } else {
      // erase down to what wants to grow
      var n := peak - MODEST_SIZE;
      ops, t, l := Shrink(ops1, t1, l1, a1, a1 + peak, a1, MAX_CAPACITY, peak, n);
      a, b := a1 + n, a1 + peak;
    }
  }

  /** After every rehash-free run with a peak of `peak` live keys inserts go ahead: true exactly below five eighths of
      2^29, and for peaks no run has. Below, it holds for every hash (`ModestRunsNeverStick`). */
  lemma InsertsGoAheadIff(peak: nat)
    ensures (peak < MODEST_SIZE || peak > FILL_LIMIT) <==>
      forall ops, t, l :: Run(Consecutive(), ops, t, l) && RehashFree(ops) && l.peak == peak ==>
        Fits(|t.slots|, t.size, t.occupied)
  {
    hide Run, TableInvariant, Fits;
    if peak < MODEST_SIZE || peak > FILL_LIMIT {
      ConsecutiveIsLawful();
      forall ops, t, l | Run(Consecutive(), ops, t, l) && RehashFree(ops) && l.peak == peak
        ensures Fits(|t.slots|, t.size, t.occupied)
      {
        PeakWithin(Consecutive(), ops, t, l);
        ModestRunsNeverStick(Consecutive(), ops, t, l, Insert(2, 0));
      }
    } else {
      var ops, t, l := StuckAtPeak(peak);
    }
  }


  // ----- What rebuilds cost -----

  /** `n` updates of a 2^31-slot table between a quarter and three eighths live scan all slots every time. */
  lemma {:induction false} UpdateLargest(ops: seq<Op<Key, int>>, t: Table<Key, int>, l: Ledger, a: nat, b: nat, r: nat,
                                         peak: nat, n: nat)
    returns (longer: seq<Op<Key, int>>, u: Table<Key, int>, m: Ledger, s: nat)
    requires r <= a <= b <= LAST && Reached(ops, t, l, a, b, r, MAX_CAPACITY, peak)
    requires EXACT_LIMIT <= b - a < FILL_LIMIT - 1 && b - r <= FILL_LIMIT
    ensures s <= a && b - s <= FILL_LIMIT && Reached(longer, u, m, a, b, s, MAX_CAPACITY, peak)
    ensures m.inserts == l.inserts + n && m.scanned == l.scanned + n * MAX_CAPACITY
    decreases n
  {
    hide Reached, Balanced;
    if n == 0 {
      longer, u, m, s := ops, t, l, r;
    } else {
      var ops1, t1, l1, r1 := UpdateLargest(ops, t, l, a, b, r, peak, n - 1);
      RescansLargest(b - a, b - r1);
      longer, u, m := InsertHeld(ops1, t1, l1, a, b, r1, MAX_CAPACITY, peak);
      s := a;
    }
  }

  lemma RescansLargest(size: nat, occupied: nat)
    requires EXACT_LIMIT <= size < FILL_LIMIT - 1 && size <= occupied <= FILL_LIMIT
    ensures Decide(MAX_CAPACITY, size, occupied) == RebuildAt(MAX_CAPACITY) && Fits(MAX_CAPACITY, size, occupied)
    ensures ScanCost(MAX_CAPACITY, size, occupied) == MAX_CAPACITY
  {
  }

  /** A run with this peak to such a table. */
  lemma RescanningWindow(peak: nat)
    returns (ops: seq<Op<Key, int>>, t: Table<Key, int>, l: Ledger, a: nat, b: nat, r: nat)
    requires EXACT_LIMIT <= peak <= FILL_LIMIT
    ensures r <= a <= b <= LAST && Reached(ops, t, l, a, b, r, MAX_CAPACITY, peak)
    ensures EXACT_LIMIT <= b - a < FILL_LIMIT - 1 && b - r <= FILL_LIMIT
  {
    hide Reached, TableInvariant, Filled, Window, Run;
    var ops1, t1, l1, n: nat;
    if peak == FILL_LIMIT {
      var c;
      ops1, t1, l1, c := FillWindow(peak);
      r, n := 2, 2;
      ReachedInvariant(ops1, t1, l1, r, r + peak, r, c, peak);
      FilledTooFar(Consecutive(), t1);
    } else {
      ops1, t1, l1, r := LargestAtPeak(peak);
      n := if peak == FILL_LIMIT - 1 then 1 else 0;
    }
    a, b := r + n, r + peak;
    ops, t, l := Shrink(ops1, t1, l1, r, b, r, MAX_CAPACITY, peak, n);
  }

  /** A rehash-free run with this peak whose rebuilds scan more than 8 old slots per insert. */
  lemma CostlyAtPeak(peak: nat) returns (ops: seq<Op<Key, int>>, t: Table<Key, int>, l: Ledger)
    requires EXACT_LIMIT <= peak <= FILL_LIMIT
    ensures Run(Consecutive(), ops, t, l) && RehashFree(ops) && l.peak == peak && l.scanned > 8 * l.inserts
  {
    hide Reached, TableInvariant, Window, Run;
    var ops1, t1, l1, a, b, r := RescanningWindow(peak);
    var s;
    ops, t, l, s := UpdateLargest(ops1, t1, l1, a, b, r, peak, l1.inserts + 1);
    ReachedInvariant(ops, t, l, a, b, s, MAX_CAPACITY, peak);
    ReachedRehashFree(ops, t, l, a, b, s, MAX_CAPACITY, peak);
  }

  /** Automatic rebuilds scan at most 8 old slots per insert: true of every rehash-free run with a peak of `peak` live
      keys exactly below 2^29, and for peaks no run has. Below, it holds for every hash (`AmortisedRebuildCost`). */
  lemma AmortisedCostIff(peak: nat)
    ensures (peak < EXACT_LIMIT || peak > FILL_LIMIT) <==>
      forall ops, t, l :: Run(Consecutive(), ops, t, l) && RehashFree(ops) && l.peak == peak ==>
        l.scanned <= 8 * l.inserts
  {
    hide Run, TableInvariant;
    if peak < EXACT_LIMIT || peak > FILL_LIMIT {
      ConsecutiveIsLawful();
      forall ops, t, l | Run(Consecutive(), ops, t, l) && RehashFree(ops) && l.peak == peak
        ensures l.scanned <= 8 * l.inserts
      {
        PeakWithin(Consecutive(), ops, t, l);
        AmortisedRebuildCost(Consecutive(), ops, t, l);
      }
    } else {
      var ops, t, l := CostlyAtPeak(peak);
    }
  }
}
