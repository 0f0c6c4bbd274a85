/** When and how far the table is rebuilt. Every comparison is the code's own 32-bit one; the lemmas
    say where it agrees with the percentages it stands for. */
module LoadPolicy {
  import opened PowerRounding
  import opened Words

  const INITIAL_CAPACITY: nat := 8

  /** Largest capacity a 32-bit power of two can express. */
  const MAX_CAPACITY: nat := 0x8000_0000

  /** Largest capacity from which doubling still fits in 32 bits. */
  const INSERT_LIMIT: nat := 0x4000_0000

  /** Largest capacity at which both thresholds mean what they say. */
  const EXACT_LIMIT: nat := 0x2000_0000

  /** The most new keys that can be inserted one after the other into an empty map. */
  const FILL_LIMIT: nat := 0x3000_0001

  datatype Decision = Keep | RebuildAt(capacity: nat)

  function GrownCapacity(capacity: nat): nat {
    if capacity == 0 then INITIAL_CAPACITY else Wrap(capacity * 2)
  }

  predicate AtOccupiedLimit(capacity: nat, occupied: nat) {
    Wrap(occupied * 4) >= Wrap(capacity * 3)
  }

  predicate AtLiveLimit(capacity: nat, size: nat) {
    Wrap(size * 8) >= Wrap(capacity * 5)
  }

  /** The decision of `EnsureCapacityForInsert`. */
  function Decide(capacity: nat, size: nat, occupied: nat): Decision {
    if capacity == 0 then RebuildAt(GrownCapacity(capacity))
    else if AtOccupiedLimit(capacity, occupied) then
      if AtLiveLimit(capacity, size) then RebuildAt(GrownCapacity(capacity)) else RebuildAt(capacity)
    else Keep
  }

  /** The counter values a table can have. */
  ghost predicate Balanced(capacity: nat, size: nat, occupied: nat) {
    && size <= occupied <= FILL_LIMIT
    && 4 * occupied <= 3 * capacity
    && (capacity == 0 || (IsPowerOfTwo(capacity) && INITIAL_CAPACITY <= capacity <= MAX_CAPACITY))
  }

  /** Strictly less than 75% occupied, and room for one more entry within `Balanced`. */
  predicate Roomy(capacity: nat, occupied: nat) {
    4 * occupied < 3 * capacity && occupied < FILL_LIMIT
  }

  // ----- Powers of two in range -----

  lemma Eightfold(n: nat)
    requires IsPowerOfTwo(n)
    ensures IsPowerOfTwo(8 * n)
  {
    Doubling(n);
    Doubling(2 * n);
    Doubling(4 * n);
  }

  lemma InitialCapacityIsPowerOfTwo()
    ensures IsPowerOfTwo(INITIAL_CAPACITY)
  {
    OneIsPowerOfTwo();
    Eightfold(1);
  }

  lemma LimitsArePowersOfTwo()
    ensures IsPowerOfTwo(EXACT_LIMIT) && IsPowerOfTwo(INSERT_LIMIT) && IsPowerOfTwo(MAX_CAPACITY)
  {
    InitialCapacityIsPowerOfTwo();
    Eightfold(8);
    Eightfold(0x40);
    Eightfold(0x200);
    Eightfold(0x1000);
    Eightfold(0x8000);
    Eightfold(0x4_0000);
    Eightfold(0x20_0000);
    Eightfold(0x100_0000);
    Doubling(0x800_0000);
    Doubling(0x1000_0000);
    Doubling(EXACT_LIMIT);
    Doubling(INSERT_LIMIT);
  }

  lemma PowerBands(e: nat, c: nat)
    requires IsPowerOfTwo(e) && IsPowerOfTwo(c) && c <= 4 * e
    ensures c <= e || c == 2 * e || c == 4 * e
  {
    if e < c {
      PowersOfTwoAreNested(e, c);
      if 2 * e < c {
        Doubling(e);
        PowersOfTwoAreNested(2 * e, c);
      }
    }
  }

  lemma DivisibleByEight(c: nat)
    requires IsPowerOfTwo(c) && c >= 8
    ensures c == 8 * (c / 8)
  {
    Halving(c);
    Halving(c / 2);
    Halving(c / 4);
  }

  lemma CapacityBands(capacity: nat)
    requires IsPowerOfTwo(capacity) && INITIAL_CAPACITY <= capacity <= MAX_CAPACITY
    ensures capacity == 8 * (capacity / 8)
    ensures capacity <= EXACT_LIMIT || capacity == INSERT_LIMIT || capacity == MAX_CAPACITY
  {
    DivisibleByEight(capacity);
    LimitsArePowersOfTwo();
    PowerBands(EXACT_LIMIT, capacity);
  }

  // ----- The thresholds -----

  /** Up to the exact limit both wrapped comparisons are the percentages of the documentation. */
  lemma ThresholdsExact(capacity: nat, size: nat, occupied: nat)
    requires Balanced(capacity, size, occupied) && capacity <= EXACT_LIMIT
    ensures AtOccupiedLimit(capacity, occupied) <==> 4 * occupied >= 3 * capacity
    ensures AtLiveLimit(capacity, size) <==> 8 * size >= 5 * capacity
  {
  }

  /** The thresholds mean what they say in every reachable state exactly up to 2^29 slots: at both
      larger capacities some counter values are misjudged. */
  lemma ThresholdsExactIff(capacity: nat)
    requires IsPowerOfTwo(capacity) && INITIAL_CAPACITY <= capacity <= MAX_CAPACITY
    ensures capacity <= EXACT_LIMIT <==>
      forall size: nat, occupied: nat :: Balanced(capacity, size, occupied) ==>
        && (AtOccupiedLimit(capacity, occupied) <==> 4 * occupied >= 3 * capacity)
        && (AtLiveLimit(capacity, size) <==> 8 * size >= 5 * capacity)
  {
    CapacityBands(capacity);
    if capacity <= EXACT_LIMIT {
      forall size: nat, occupied: nat | Balanced(capacity, size, occupied)
        ensures (AtOccupiedLimit(capacity, occupied) <==> 4 * occupied >= 3 * capacity)
             && (AtLiveLimit(capacity, size) <==> 8 * size >= 5 * capacity)
      {
        ThresholdsExact(capacity, size, occupied);
      }
    } else if capacity == INSERT_LIMIT {
      // one eighth live already looks like five eighths
      assert Balanced(capacity, 0x800_0000, 0x800_0000);
      assert AtLiveLimit(capacity, 0x800_0000);
    } else {
      // one quarter occupied already looks like three quarters
      assert Balanced(capacity, 0, 0x2000_0000);
      assert AtOccupiedLimit(capacity, 0x2000_0000);
    }
  }

  lemma CompactionLeavesRoom(capacity: nat, size: nat, occupied: nat)
    requires Balanced(capacity, size, occupied) && 0 < capacity <= INSERT_LIMIT
    requires !AtLiveLimit(capacity, size)
    ensures 8 * size < 5 * capacity
  {
    CapacityBands(capacity);
  }

  /** The calls of Insert whose 32-bit arithmetic works out, as a caller can check beforehand: every table
      of up to 2^30 slots, and of the 2^31-slot tables those that do not want to grow. */
  predicate Fits(capacity: nat, size: nat, occupied: nat) {
    capacity <= INSERT_LIMIT || !(AtOccupiedLimit(capacity, occupied) && AtLiveLimit(capacity, size))
  }

  /** After acting on the decision the table has a legal capacity and room for one more entry. */
  ghost predicate LeavesRoom(capacity: nat, size: nat, occupied: nat) {
    match Decide(capacity, size, occupied)
    case Keep => 0 < capacity && Roomy(capacity, occupied)
    case RebuildAt(c) => IsPowerOfTwo(c) && INITIAL_CAPACITY <= c <= MAX_CAPACITY && Roomy(c, size)
  }

  lemma SmallTablesLeaveRoom(capacity: nat, size: nat, occupied: nat)
    requires Balanced(capacity, size, occupied) && capacity <= INSERT_LIMIT
    ensures LeavesRoom(capacity, size, occupied)
  {
    assert AtOccupiedLimit(capacity, occupied) <==> 4 * occupied >= 3 * capacity;
    if capacity == 0 {
      InitialCapacityIsPowerOfTwo();
    } else {
      Doubling(capacity);
      if !AtLiveLimit(capacity, size) {
        CompactionLeavesRoom(capacity, size, occupied);
      }
    }
  }

  /** `Fits` is exact: it holds if and only if the decision leaves room. */
  lemma FitsIff(capacity: nat, size: nat, occupied: nat)
    requires Balanced(capacity, size, occupied)
    ensures Fits(capacity, size, occupied) <==> LeavesRoom(capacity, size, occupied)
  {
    if capacity <= INSERT_LIMIT {
      SmallTablesLeaveRoom(capacity, size, occupied);
    } else {
      CapacityBands(capacity);
      LargestTable(size, occupied);
    }
  }

  lemma LargestTable(size: nat, occupied: nat)
    requires Balanced(MAX_CAPACITY, size, occupied)
    ensures Fits(MAX_CAPACITY, size, occupied) <==> LeavesRoom(MAX_CAPACITY, size, occupied)
  {
  }

  /** What one decision guarantees. A rebuild in place at up to 2^30 slots is only chosen below 62.5% live,
      even where the live threshold itself has wrapped around. */
  lemma DecisionFacts(capacity: nat, size: nat, occupied: nat)
    requires Balanced(capacity, size, occupied) && Fits(capacity, size, occupied)
    ensures LeavesRoom(capacity, size, occupied)
    ensures match Decide(capacity, size, occupied)
      case Keep => true
      case RebuildAt(c) =>
        && (capacity <= INSERT_LIMIT ==> 4 * occupied >= 3 * capacity)
        && ((c == capacity && (capacity <= INSERT_LIMIT ==> 8 * size < 5 * capacity))
            || (c == 2 * capacity && 0 < capacity <= INSERT_LIMIT && AtLiveLimit(capacity, size))
            || (c == INITIAL_CAPACITY && capacity == 0 && size == 0))
  {
    FitsIff(capacity, size, occupied);
    if 0 < capacity <= INSERT_LIMIT {
      assert AtOccupiedLimit(capacity, occupied) <==> 4 * occupied >= 3 * capacity;
      if !AtLiveLimit(capacity, size) {
        CompactionLeavesRoom(capacity, size, occupied);
      }
    }
  }

  /** An insert doubles the table only when it is at least 62.5% live: true exactly up to 2^29 slots. */
  lemma GrowsOnlyWhenLiveIff(capacity: nat)
    requires IsPowerOfTwo(capacity) && INITIAL_CAPACITY <= capacity <= INSERT_LIMIT
    ensures capacity <= EXACT_LIMIT <==>
      forall size: nat, occupied: nat ::
        (Balanced(capacity, size, occupied) && Decide(capacity, size, occupied) == RebuildAt(2 * capacity))
        ==> 8 * size >= 5 * capacity
  {
    CapacityBands(capacity);
    if capacity <= EXACT_LIMIT {
      forall size: nat, occupied: nat | Balanced(capacity, size, occupied) &&
          Decide(capacity, size, occupied) == RebuildAt(2 * capacity)
        ensures 8 * size >= 5 * capacity
      {
        ThresholdsExact(capacity, size, occupied);
      }
    } else {
      // one eighth live, the rest of three quarters tombstones
      assert Balanced(capacity, 0x800_0000, 0x3000_0000);
      assert Decide(capacity, 0x800_0000, 0x3000_0000) == RebuildAt(2 * capacity);
    }
  }

  /** From 2^31 slots growth wraps to capacity 0: the case an insert must not reach. Filling an empty map with new
      keys ends at these counters. */
  lemma GrowthWrapsAtMaximum()
    ensures Balanced(MAX_CAPACITY, FILL_LIMIT, FILL_LIMIT) && !Fits(MAX_CAPACITY, FILL_LIMIT, FILL_LIMIT)
    ensures Decide(MAX_CAPACITY, FILL_LIMIT, FILL_LIMIT) == RebuildAt(0)
  {
    LimitsArePowersOfTwo();
  }

  // ----- What a preparation costs -----

  /** Old slots scanned by the rebuild an insert triggers on its own (none when it triggers no rebuild). */
  function ScanCost(capacity: nat, size: nat, occupied: nat): nat {
    if Decide(capacity, size, occupied).RebuildAt? then capacity else 0
  }

  function Max(a: nat, b: nat): nat {
    if a < b then b else a
  }

  /** Occupied slots beyond 62.5%, eightfold: what has been saved for the next rebuild. */
  function Savings(capacity: nat, occupied: nat): nat {
    Max(8 * occupied, 5 * capacity) - 5 * capacity
  }

  /** What the preparation of an insert scans and leaves saved is covered by what was saved before it. */
  predicate PaysFromSavings(capacity: nat, size: nat, occupied: nat) {
    ScanCost(capacity, size, occupied) +
      (match Decide(capacity, size, occupied)
       case Keep => Savings(capacity, occupied)
       case RebuildAt(c) => Savings(c, size))
    <= Savings(capacity, occupied)
  }

  lemma SmallTablesPay(capacity: nat, size: nat, occupied: nat)
    requires Balanced(capacity, size, occupied) && capacity <= INSERT_LIMIT
    ensures PaysFromSavings(capacity, size, occupied)
  {
    hide IsPowerOfTwo, AtOccupiedLimit, AtLiveLimit;
    DecisionFacts(capacity, size, occupied);
  }

  /** The counters of a 2^31-slot table, a quarter live and without tombstones, to which every insert, even
      the update of a present key, is a rebuild of all slots that leaves the counters as they were. */
  lemma QuarterFullRebuilds()
    ensures var quarter := EXACT_LIMIT;
      && Balanced(MAX_CAPACITY, quarter, quarter) && Fits(MAX_CAPACITY, quarter, quarter)
      && Decide(MAX_CAPACITY, quarter, quarter) == RebuildAt(MAX_CAPACITY)
      && Savings(MAX_CAPACITY, quarter) == 0 && !PaysFromSavings(MAX_CAPACITY, quarter, quarter)
  {
    LimitsArePowersOfTwo();
  }

  /** Rebuilds are paid for by what inserts have saved: for all counters exactly up to 2^30 slots. */
  lemma PreparationPaysIff(capacity: nat)
    requires IsPowerOfTwo(capacity) && INITIAL_CAPACITY <= capacity <= MAX_CAPACITY
    ensures capacity <= INSERT_LIMIT <==>
      forall size: nat, occupied: nat :: Balanced(capacity, size, occupied) && Fits(capacity, size, occupied) ==>
        PaysFromSavings(capacity, size, occupied)
  {
    CapacityBands(capacity);
    if capacity <= INSERT_LIMIT {
      forall size: nat, occupied: nat | Balanced(capacity, size, occupied)
        ensures PaysFromSavings(capacity, size, occupied)
      {
        SmallTablesPay(capacity, size, occupied);
      }
    } else {
      QuarterFullRebuilds();
    }
  }

  /** What has been put aside for rebuilds in a map that never holds 2^29 entries: like `Savings`, but counted from
      where a table of 2^30 or 2^31 slots can have started. */
  function Credit(capacity: nat, occupied: nat): nat {
    var start := if capacity <= EXACT_LIMIT then 5 * capacity
                 else if capacity <= INSERT_LIMIT then 3 * capacity else capacity;
    Max(8 * occupied, start) - start
  }

  /** With fewer than 2^29 entries live, rebuilds are paid for from credit at every capacity. */
  lemma CreditPays(capacity: nat, size: nat, occupied: nat)
    requires Balanced(capacity, size, occupied) && Fits(capacity, size, occupied) && size < EXACT_LIMIT
    ensures ScanCost(capacity, size, occupied) +
        (match Decide(capacity, size, occupied)
         case Keep => Credit(capacity, occupied)
         case RebuildAt(c) => Credit(c, size))
      <= Credit(capacity, occupied)
  {
    DecisionFacts(capacity, size, occupied);
    if capacity > 0 {
      CapacityBands(capacity);
    }
  }

  /** Counters at which an insert that may go ahead rebuilds in place. */
  ghost predicate Compacts(capacity: nat, size: nat, occupied: nat) {
    && Balanced(capacity, size, occupied) && Fits(capacity, size, occupied)
    && Decide(capacity, size, occupied) == RebuildAt(capacity)
  }

  /** Counters at which an insert that may go ahead scans the table for a rebuild. */
  ghost predicate Rescans(capacity: nat, size: nat, occupied: nat) {
    && Balanced(capacity, size, occupied) && Fits(capacity, size, occupied)
    && ScanCost(capacity, size, occupied) > 0
  }

  lemma CompactionsAreApart(capacity: nat, size: nat, occupied: nat, later: nat, laterOccupied: nat)
    requires 0 < capacity <= INSERT_LIMIT
    requires Compacts(capacity, size, occupied) && Rescans(capacity, later, laterOccupied)
    ensures laterOccupied >= size + capacity / 8 + 1
  {
    CapacityBands(capacity);
    DecisionFacts(capacity, size, occupied);
    DecisionFacts(capacity, later, laterOccupied);
  }

  /** From the occupancy a compaction leaves, an eighth of the slots and one more have to be occupied before the
      next rebuild: for all counters exactly up to 2^30 slots. */
  lemma CompactionsAreApartIff(capacity: nat)
    requires IsPowerOfTwo(capacity) && INITIAL_CAPACITY <= capacity <= MAX_CAPACITY
    ensures capacity <= INSERT_LIMIT <==>
      forall size: nat, occupied: nat, later: nat, laterOccupied: nat ::
        Compacts(capacity, size, occupied) && Rescans(capacity, later, laterOccupied) ==>
          laterOccupied >= size + capacity / 8 + 1
  {
    CapacityBands(capacity);
    if capacity <= INSERT_LIMIT {
      forall size: nat, occupied: nat, later: nat, laterOccupied: nat
        | Compacts(capacity, size, occupied) && Rescans(capacity, later, laterOccupied)
        ensures laterOccupied >= size + capacity / 8 + 1
      {
        CompactionsAreApart(capacity, size, occupied, later, laterOccupied);
      }
    } else {
      QuarterFullRebuilds();
      assert Compacts(capacity, EXACT_LIMIT, EXACT_LIMIT) && Rescans(capacity, EXACT_LIMIT, EXACT_LIMIT);
    }
  }

  // ----- Choosing the capacity of an explicit rehash -----

  function FirstCandidate(target: nat): (r: nat)
    ensures IsPowerOfTwo(r) && INITIAL_CAPACITY <= r
  {
    InitialCapacityIsPowerOfTwo();
    if NextPowerOfTwo(target) > INITIAL_CAPACITY then NextPowerOfTwo(target) else INITIAL_CAPACITY
  }

  lemma FirstCandidateInRange(target: nat)
    requires target <= MAX_CAPACITY
    ensures FirstCandidate(target) <= MAX_CAPACITY
  {
    LimitsArePowersOfTwo();
    NextPowerOfTwoIsLeast(target, MAX_CAPACITY);
  }

  /** The loop guard of `Rehash`, in 32-bit arithmetic. */
  predicate TooSmall(capacity: nat, size: nat) {
    Wrap(capacity * 3) <= Wrap(size * 4)
  }

  /** The candidate after `n` rounds of `minCapacity *= 2u`. */
  function Candidate(first: nat, n: nat): nat {
    if n == 0 then first else Wrap(Candidate(first, n - 1) * 2)
  }

  /** The caller-checkable condition under which the doubling loop of `Rehash` stops. */
  predicate RehashStops(target: nat, size: nat) {
    Wrap(size * 4) < if FirstCandidate(target) <= INSERT_LIMIT then 3 * INSERT_LIMIT else MAX_CAPACITY
  }

  /** The calls of Rehash whose 32-bit arithmetic works out. */
  predicate RehashFits(target: nat, size: nat) {
    target <= MAX_CAPACITY && RehashStops(target, size)
  }

  /** Once the candidate has wrapped to 0 it stays 0, and 0 is too small for every size. */
  lemma {:induction false} StuckAtZero(first: nat, size: nat, k: nat, n: nat)
    requires k <= n && Candidate(first, k) == 0
    ensures Candidate(first, n) == 0 && TooSmall(0, size)
  {
    if k < n {
      StuckAtZero(first, size, k, n - 1);
    }
  }

  /** While every candidate is too small, the candidates are the doublings of the first one, then 0. */
  lemma {:induction false} NeverStops(first: nat, size: nat, n: nat)
    requires IsPowerOfTwo(first) && INITIAL_CAPACITY <= first <= MAX_CAPACITY
    requires Wrap(size * 4) >= if first <= INSERT_LIMIT then 3 * INSERT_LIMIT else MAX_CAPACITY
    ensures TooSmall(Candidate(first, n), size)
    ensures Candidate(first, n) == 0
         || (IsPowerOfTwo(Candidate(first, n)) && first <= Candidate(first, n) <= MAX_CAPACITY)
  {
    if n == 0 {
      CapacityBands(first);
    } else {
      NeverStops(first, size, n - 1);
      var c := Candidate(first, n - 1);
      if 0 < c {
        CapacityBands(c);
        if c < MAX_CAPACITY {
          assert Wrap(c * 2) == 2 * c;
          Doubling(c);
          CapacityBands(2 * c);
        }
      }
    }
  }

  /** The doubling loop of `Rehash` stops if and only if `RehashStops` holds. */
  lemma RehashLoopStopsIff(target: nat, size: nat)
    requires target <= MAX_CAPACITY
    ensures RehashStops(target, size) <==> exists n: nat :: !TooSmall(Candidate(FirstCandidate(target), n), size)
  {
    var first := FirstCandidate(target);
    FirstCandidateInRange(target);
    LimitsArePowersOfTwo();
    if RehashStops(target, size) {
      var n := Reaches(first, if first <= INSERT_LIMIT then INSERT_LIMIT else MAX_CAPACITY);
      assert !TooSmall(Candidate(first, n), size);
    } else {
      forall n: nat ensures TooSmall(Candidate(first, n), size) {
        NeverStops(first, size, n);
      }
    }
  }

  /** A quarter-full 2^31-slot table asked to rehash at more than 2^30 slots: the loop never stops. */
  lemma RehashNeverStops()
    ensures var quarter, target := EXACT_LIMIT, 0x4000_0001;
      && Balanced(MAX_CAPACITY, quarter, quarter) && !RehashStops(target, quarter)
      && forall n: nat :: TooSmall(Candidate(FirstCandidate(target), n), quarter)
  {
    LimitsArePowersOfTwo();
    RehashLoopStopsIff(0x4000_0001, EXACT_LIMIT);
  }

  lemma {:induction false} Reaches(first: nat, last: nat) returns (n: nat)
    requires IsPowerOfTwo(first) && IsPowerOfTwo(last) && first <= last <= MAX_CAPACITY
    ensures Candidate(first, n) == last
    decreases last
  {
    if first == last {
      n := 0;
    } else {
      PowersOfTwoAreNested(first, last);
      Halving(last);
      n := Reaches(first, last / 2);
      n := n + 1;
    }
  }

  /** A candidate is 0 or a power of two between the first one and the largest capacity. */
  lemma {:induction false} CandidateRange(first: nat, n: nat)
    requires IsPowerOfTwo(first) && INITIAL_CAPACITY <= first <= MAX_CAPACITY
    ensures Candidate(first, n) == 0 ||
      (IsPowerOfTwo(Candidate(first, n)) && first <= Candidate(first, n) <= MAX_CAPACITY)
  {
    if n > 0 {
      CandidateRange(first, n - 1);
      var c := Candidate(first, n - 1);
      if 0 < c {
        CapacityBands(c);
        if c < MAX_CAPACITY {
          assert Wrap(c * 2) == 2 * c;
          Doubling(c);
          CapacityBands(2 * c);
        }
      }
    }
  }

  /** The doubling loop stops after `n` rounds. */
  ghost predicate StopsAt(first: nat, size: nat, n: nat) {
    !TooSmall(Candidate(first, n), size) && forall m: nat :: m < n ==> TooSmall(Candidate(first, m), size)
  }

  lemma {:induction false} FirstStop(first: nat, size: nat, n: nat) returns (k: nat)
    requires !TooSmall(Candidate(first, n), size)
    ensures StopsAt(first, size, k)
    decreases n
  {
    if m: nat :| m < n && !TooSmall(Candidate(first, m), size) {
      k := FirstStop(first, size, m);
    } else {
      k := n;
    }
  }

  /** For every size a table can have, the loop settles, and at a capacity that keeps the live entries below 75%,
      if and only if it stops at all. */
  lemma RehashFitsIff(target: nat, size: nat)
    requires target <= MAX_CAPACITY && size <= FILL_LIMIT
    ensures RehashFits(target, size) <==>
      exists n: nat :: StopsAt(FirstCandidate(target), size, n) && 3 * Candidate(FirstCandidate(target), n) > 4 * size
  {
    var first := FirstCandidate(target);
    FirstCandidateInRange(target);
    RehashLoopStopsIff(target, size);
    if RehashFits(target, size) {
      var n: nat :| !TooSmall(Candidate(first, n), size);
      var k := FirstStop(first, size, n);
      StopFits(first, size, k);
    }
  }

  lemma StopFits(first: nat, size: nat, n: nat)
    requires IsPowerOfTwo(first) && INITIAL_CAPACITY <= first <= MAX_CAPACITY && StopsAt(first, size, n)
    requires size <= FILL_LIMIT
    ensures 3 * Candidate(first, n) > 4 * size
  {
    CandidateRange(first, n);
    CapacityBands(first);
  }

  /** The least power of two, from `first` on, that is strictly more than 4/3 of `size`. */
  function LeastFitting(first: nat, size: nat): (r: nat)
    requires first > 0
    ensures first <= r && 3 * r > 4 * size
    decreases 4 * size - 3 * first
  {
    if 3 * first <= 4 * size then LeastFitting(2 * first, size) else first
  }

  lemma {:induction false} LeastFittingIsPowerOfTwo(first: nat, size: nat)
    requires IsPowerOfTwo(first)
    ensures IsPowerOfTwo(LeastFitting(first, size))
    decreases 4 * size - 3 * first
  {
    if 3 * first <= 4 * size {
      Doubling(first);
      LeastFittingIsPowerOfTwo(2 * first, size);
    }
  }

  lemma {:induction false} LeastFittingIsLeast(first: nat, size: nat, p: nat)
    requires IsPowerOfTwo(first) && IsPowerOfTwo(p) && first <= p && 3 * p > 4 * size
    ensures LeastFitting(first, size) <= p
    decreases 4 * size - 3 * first
  {
    if 3 * first <= 4 * size {
      PowersOfTwoAreNested(first, p);
      Doubling(first);
      LeastFittingIsLeast(2 * first, size, p);
    }
  }
}
