/** Whole runs of the map: any sequence of operations from the empty map. What Find sees, what the
    rebuilds cost, and how far the capacity can go. */
module MapRuns {
  import opened Wrappers

  import opened LoadPolicy
  import opened PowerRounding
  import opened ProbeTable
  import opened TableSteps

  datatype Op<K, V> =
    | Insert(key: K, value: V)
    | Erase(key: K)
    | Clear
    | Release
    | Rehash(target: nat)

  /** No explicit rehash. */
  predicate RehashFree<K, V>(ops: seq<Op<K, V>>) {
    forall i :: 0 <= i < |ops| ==> !ops[i].Rehash?
  }

  /** The calls the 32-bit arithmetic of the map admits. */
  ghost predicate Enabled<K(!new), V(!new)>(tr: Traits<K, V>, t: Table<K, V>, op: Op<K, V>) {
    match op
    case Insert(_, _) => Fits(|t.slots|, t.size, t.occupied)
    case Rehash(target) => RehashFits(target, t.size)
    case _ => true
  }

  ghost function Apply<K(!new), V(!new)>(tr: Traits<K, V>, t: Table<K, V>, op: Op<K, V>): Table<K, V>
    requires TableInvariant(tr, t) && Enabled(tr, t, op)
  {
    match op
    case Insert(k, v) => Inserted(tr, t, k, v)
    case Erase(k) => Erased(tr, t, k)
    case Clear => Cleared(tr, t)
    case Release => Released(t)
    case Rehash(target) => Rehashed(tr, t, target)
  }

  lemma ApplyKeepsInvariant<K(!new), V(!new)>(tr: Traits<K, V>, t: Table<K, V>, op: Op<K, V>)
    requires TableInvariant(tr, t) && Enabled(tr, t, op)
    ensures TableInvariant(tr, Apply(tr, t, op))
  {
    match op
    case Insert(k, v) => InsertedFacts(tr, t, k, v);
    case Erase(k) => ErasedFacts(tr, t, k);
    case Clear => ClearedFacts(tr, t);
    case Release => ReleasedFacts(tr, t);
    case Rehash(target) => RehashedFacts(tr, t, target);
  }

  /** Old slots scanned by the rebuild an insert triggers on its own (none when it triggers no rebuild). */
  function Scanned<K, V>(t: Table<K, V>): nat {
    ScanCost(|t.slots|, t.size, t.occupied)
  }

  /** Bookkeeping along a run: calls of Insert, slots scanned by automatic rebuilds, the largest live size
      met, the largest capacity an Insert started at, and, for explicit rehashes, the sum and the largest of
      the capacities they end at. */
  datatype Ledger = Ledger(inserts: nat, scanned: nat, peak: nat, insertMax: nat, rehashSum: nat, rehashMax: nat)

  ghost function Charge<K(!new), V(!new)>(tr: Traits<K, V>, l: Ledger, t: Table<K, V>, op: Op<K, V>): Ledger
    requires TableInvariant(tr, t) && Enabled(tr, t, op)
  {
    var u := Apply(tr, t, op);
    match op
    case Insert(_, _) =>
      l.(inserts := l.inserts + 1, scanned := l.scanned + Scanned(t), peak := Max(l.peak, u.size),
         insertMax := Max(l.insertMax, |t.slots|))
    case Rehash(_) => l.(rehashSum := l.rehashSum + |u.slots|, rehashMax := Max(l.rehashMax, |u.slots|))
    case _ => l
  }

  /** One enabled call, from table `u` and ledger `m` to table `t` and ledger `l`. */
  ghost predicate Step<K(!new), V(!new)>(tr: Traits<K, V>, u: Table<K, V>, m: Ledger, op: Op<K, V>, t: Table<K, V>,
                                         l: Ledger) {
    TableInvariant(tr, u) && Enabled(tr, u, op) && t == Apply(tr, u, op) && l == Charge(tr, m, u, op)
  }

  /** `t` is the table and `l` the ledger after the operations `ops` on an empty map, each of them enabled
      when it was called. */
  ghost predicate Run<K(!new), V(!new)>(tr: Traits<K, V>, ops: seq<Op<K, V>>, t: Table<K, V>, l: Ledger) {
    if ops == [] then t == Nothing() && l == Ledger(0, 0, 0, 0, 0, 0)
    else
      var op := ops[|ops| - 1];
      exists u, m :: Run(tr, ops[..|ops| - 1], u, m) && Step(tr, u, m, op, t, l)
  }

  /** Any enabled call extends any run. */
  lemma {:induction false} RunsContinue<K(!new), V(!new)>(tr: Traits<K, V>, ops: seq<Op<K, V>>, t: Table<K, V>,
                                                          l: Ledger, op: Op<K, V>)
    requires Lawful(tr) && Run(tr, ops, t, l) && TableInvariant(tr, t) && Enabled(tr, t, op)
    ensures Run(tr, ops + [op], Apply(tr, t, op), Charge(tr, l, t, op))
  {
    assert (ops + [op])[..|ops|] == ops && (ops + [op])[|ops|] == op;
    assert Step(tr, t, l, op, Apply(tr, t, op), Charge(tr, l, t, op));
  }

  /** Every reachable table satisfies the invariant, is at most 75% occupied and, unless it is unallocated, has an
      empty slot. */
  lemma {:induction false} RunKeepsInvariant<K(!new), V(!new)>(tr: Traits<K, V>, ops: seq<Op<K, V>>, t: Table<K, V>,
                                                               l: Ledger)
    requires Lawful(tr) && Run(tr, ops, t, l)
    ensures TableInvariant(tr, t)
    ensures t.size <= t.occupied <= FILL_LIMIT && 4 * t.occupied <= 3 * |t.slots|
    ensures t.slots != [] ==> exists e :: 0 <= e < |t.slots| && !Used(tr, t.slots[e])
  {
    if ops != [] {
      var op := ops[|ops| - 1];
      var u, m :| Run(tr, ops[..|ops| - 1], u, m) && Step(tr, u, m, op, t, l);
      ApplyKeepsInvariant(tr, u, op);
    }
    if t.slots != [] {
      var e := EmptySlotExists(tr, t.slots);
    }
  }

  /** After any run an explicit rehash goes ahead if and only if its loop settles at a capacity that keeps the live
      entries below 75%, and that is if and only if the loop stops. */
  lemma RehashWorksIff<K(!new), V(!new)>(tr: Traits<K, V>, ops: seq<Op<K, V>>, t: Table<K, V>, l: Ledger, target: nat)
    requires Lawful(tr) && Run(tr, ops, t, l) && target <= MAX_CAPACITY
    ensures Enabled(tr, t, Rehash(target)) <==> RehashStops(target, t.size)
    ensures Enabled(tr, t, Rehash(target)) <==>
      exists n: nat ::
        StopsAt(FirstCandidate(target), t.size, n) && 3 * Candidate(FirstCandidate(target), n) > 4 * t.size
  {
    hide Run;
    RunKeepsInvariant(tr, ops, t, l);
    RehashFitsIff(target, t.size);
  }

  // ----- What Find sees -----

  /** What one call does to the answer owed to a lookup of `k`. Aborted inserts leave no trace. */
  function Overwrite<K(==), V>(tr: Traits<K, V>, earlier: Option<V>, op: Op<K, V>, k: K): Option<V> {
    match op
    case Insert(q, v) => if !Sentinel(tr, q) && tr.equal(q, k) then Some(v) else earlier
    case Erase(q) => if tr.equal(q, k) then None else earlier
    case Clear => None
    case Release => None
    case Rehash(_) => earlier
  }

  /** The answer a lookup of `k` owes to the history alone: the last insert of an equal key, unless an
      erase of an equal key, a clear or a release came after it. */
  function LastWrite<K(==), V>(tr: Traits<K, V>, ops: seq<Op<K, V>>, k: K): Option<V> {
    if ops == [] then None
    else Overwrite(tr, LastWrite(tr, ops[..|ops| - 1], k), ops[|ops| - 1], k)
  }

  lemma FindAfterInsert<K(!new), V(!new)>(tr: Traits<K, V>, m: map<K, V>, q: K, v: V, k: K)
    requires Lawful(tr) && Inequivalent(tr, m)
    ensures MapFind(tr, MapInsert(tr, m, q, v), k)
         == if !Sentinel(tr, q) && tr.equal(q, k) then Some(v) else MapFind(tr, m, k)
  {
  }

  lemma FindAfterErase<K(!new), V(!new)>(tr: Traits<K, V>, m: map<K, V>, q: K, k: K)
    requires Lawful(tr) && Inequivalent(tr, m)
    ensures MapFind(tr, MapErase(tr, m, q), k) == if tr.equal(q, k) then None else MapFind(tr, m, k)
  {
  }

  /** What one enabled call does to a later lookup of `k`. */
  lemma FindAfterCall<K(!new), V(!new)>(tr: Traits<K, V>, u: Table<K, V>, op: Op<K, V>, k: K)
    requires TableInvariant(tr, u) && Enabled(tr, u, op)
    ensures MapFind(tr, ProbeTable.Contents(tr, Apply(tr, u, op).slots), k)
         == Overwrite(tr, MapFind(tr, ProbeTable.Contents(tr, u.slots), k), op, k)
  {
    SlotsAgreeWithMap(tr, u, k);
    match op
    case Insert(q, v) =>
      InsertedFacts(tr, u, q, v);
      FindAfterInsert(tr, ProbeTable.Contents(tr, u.slots), q, v, k);
    case Erase(q) =>
      ErasedFacts(tr, u, q);
      FindAfterErase(tr, ProbeTable.Contents(tr, u.slots), q, k);
    case Clear => ClearedFacts(tr, u);
    case Release => ReleasedFacts(tr, u);
    case Rehash(target) => RehashedFacts(tr, u, target);
  }

  lemma {:induction false} ContentsFollowHistory<K(!new), V(!new)>(tr: Traits<K, V>, ops: seq<Op<K, V>>,
                                                                   t: Table<K, V>, l: Ledger, k: K)
    requires Lawful(tr) && Run(tr, ops, t, l)
    ensures MapFind(tr, ProbeTable.Contents(tr, t.slots), k) == LastWrite(tr, ops, k)
  {
    if ops != [] {
      var op := ops[|ops| - 1];
      var u, n :| Run(tr, ops[..|ops| - 1], u, n) && Step(tr, u, n, op, t, l);
      ContentsFollowHistory(tr, ops[..|ops| - 1], u, n, k);
      FindAfterCall(tr, u, op, k);
    }
  }

  /** Over every run, the table with its tombstones, probe chains and rebuilds answers each lookup from
      the history alone: a slot holds a key equal to `k` exactly when an insert of one is the last word,
      and it holds the value of that insert. */
  lemma {:induction false} FindSeesLastWrite<K(!new), V(!new)>(tr: Traits<K, V>, ops: seq<Op<K, V>>, t: Table<K, V>,
                                                               l: Ledger, k: K)
    requires Lawful(tr) && Run(tr, ops, t, l)
    ensures Present(tr, t.slots, k) <==> LastWrite(tr, ops, k).Some?
    ensures Present(tr, t.slots, k) ==> t.slots[HitSlot(tr, t.slots, k)].value == LastWrite(tr, ops, k).value
  {
    RunKeepsInvariant(tr, ops, t, l);
    SlotsAgreeWithMap(tr, t, k);
    ContentsFollowHistory(tr, ops, t, l, k);
  }

  // ----- What rebuilds cost -----

  /** Occupied slots beyond 62.5%, eightfold: what has been saved for the next rebuild. */
  function Saved<K, V>(t: Table<K, V>): nat {
    Savings(|t.slots|, t.occupied)
  }

  /** One insert pays at most 8: for the slots its rebuild scans and for what it saves. */
  lemma InsertPaysEight<K(!new), V(!new)>(tr: Traits<K, V>, t: Table<K, V>, k: K, v: V)
    requires TableInvariant(tr, t) && |t.slots| <= INSERT_LIMIT
    ensures Scanned(t) + Saved(Inserted(tr, t, k, v)) <= Saved(t) + 8
  {
    hide TableInvariant, Stored, Prepared, Savings;
    PreparedFacts(tr, t);
    PreparationPays(tr, t);
    var u := Prepared(tr, t);
    StoreOccupiesOne(tr, u, k, v);
    OneSlotSavesEight(|u.slots|, u.occupied, Inserted(tr, t, k, v).occupied);
  }

  lemma PreparationPays<K(!new), V(!new)>(tr: Traits<K, V>, t: Table<K, V>)
    requires TableInvariant(tr, t) && |t.slots| <= INSERT_LIMIT
    ensures Scanned(t) + Saved(Prepared(tr, t)) <= Saved(t)
  {
    hide Savings, Prepared, Refill;
    SmallTablesPay(|t.slots|, t.size, t.occupied);
    PreparedSize(tr, t);
  }

  lemma OneSlotSavesEight(capacity: nat, occupied: nat, after: nat)
    ensures after <= occupied + 1 ==> Savings(capacity, after) <= Savings(capacity, occupied) + 8
  {
  }

  lemma PreparedSize<K(!new), V(!new)>(tr: Traits<K, V>, t: Table<K, V>)
    requires TableInvariant(tr, t) && Fits(|t.slots|, t.size, t.occupied)
    ensures match Decide(|t.slots|, t.size, t.occupied)
      case Keep => Prepared(tr, t) == t
      case RebuildAt(c) => |Prepared(tr, t).slots| == c && Prepared(tr, t).occupied == t.size
  {
  }

  lemma StoreOccupiesOne<K(!new), V(!new)>(tr: Traits<K, V>, u: Table<K, V>, k: K, v: V)
    requires TableInvariant(tr, u) && u.slots != []
    ensures var w := Stored(tr, u, k, v);
      |w.slots| == |u.slots| && u.occupied <= w.occupied <= u.occupied + 1 && u.size <= w.size <= u.size + 1
  {
  }

  lemma OtherCallsSaveNothing<K(!new), V(!new)>(tr: Traits<K, V>, t: Table<K, V>, op: Op<K, V>)
    requires TableInvariant(tr, t) && Enabled(tr, t, op) && !op.Insert?
    ensures op.Rehash? ==> Saved(Apply(tr, t, op)) <= |Apply(tr, t, op).slots|
    ensures !op.Rehash? ==> Saved(Apply(tr, t, op)) <= Saved(t)
  {
    hide TableInvariant, Present, RehashCapacity;
    if op.Rehash? {
      RehashedFacts(tr, t, op.target);
      RehashCapacityIsLeast(op.target, t.size, 0);
    }
  }

  /** Amortised cost: over every run whose inserts start at 2^30 slots or fewer the automatic rebuilds scan at
      most 8 old slots per Insert; each explicit rehash adds at most the capacity it ends at. */
  lemma {:induction false} RebuildsCostEightPerInsert<K(!new), V(!new)>(tr: Traits<K, V>, ops: seq<Op<K, V>>,
      t: Table<K, V>, l: Ledger)
    requires Lawful(tr) && Run(tr, ops, t, l) && l.insertMax <= INSERT_LIMIT
    ensures l.scanned + Saved(t) <= 8 * l.inserts + l.rehashSum
  {
    if ops != [] {
      var op := ops[|ops| - 1];
      var u, m :| Run(tr, ops[..|ops| - 1], u, m) && Step(tr, u, m, op, t, l);
      RebuildsCostEightPerInsert(tr, ops[..|ops| - 1], u, m);
      match op
      case Insert(k, v) => InsertPaysEight(tr, u, k, v);
      case _ => OtherCallsSaveNothing(tr, u, op);
    }
  }

  /** Without explicit rehashes nothing is added for them. */
  lemma {:induction false} NoRehashNoSurcharge<K(!new), V(!new)>(tr: Traits<K, V>, ops: seq<Op<K, V>>,
                                                                 t: Table<K, V>, l: Ledger)
    requires Run(tr, ops, t, l)
    requires RehashFree(ops)
    ensures l.rehashSum == 0 && l.rehashMax == 0
  {
    if ops != [] {
      var op := ops[|ops| - 1];
      var u, m :| Run(tr, ops[..|ops| - 1], u, m) && Step(tr, u, m, op, t, l);
      NoRehashNoSurcharge(tr, ops[..|ops| - 1], u, m);
    }
  }

  lemma InsertPaysEightOfCredit<K(!new), V(!new)>(tr: Traits<K, V>, t: Table<K, V>, k: K, v: V)
    requires TableInvariant(tr, t) && Fits(|t.slots|, t.size, t.occupied) && t.size < EXACT_LIMIT
    ensures var u := Inserted(tr, t, k, v);
      Scanned(t) + Credit(|u.slots|, u.occupied) <= Credit(|t.slots|, t.occupied) + 8
  {
    hide TableInvariant, Stored, Prepared, Credit;
    PreparedFacts(tr, t);
    PreparationPaysCredit(tr, t);
    var u := Prepared(tr, t);
    StoreOccupiesOne(tr, u, k, v);
    OneSlotIsEightOfCredit(|u.slots|, u.occupied, Inserted(tr, t, k, v).occupied);
  }

  lemma PreparationPaysCredit<K(!new), V(!new)>(tr: Traits<K, V>, t: Table<K, V>)
    requires TableInvariant(tr, t) && Fits(|t.slots|, t.size, t.occupied) && t.size < EXACT_LIMIT
    ensures var u := Prepared(tr, t);
      Scanned(t) + Credit(|u.slots|, u.occupied) <= Credit(|t.slots|, t.occupied)
  {
    hide Credit, Prepared, Refill;
    PreparedSize(tr, t);
    CreditPays(|t.slots|, t.size, t.occupied);
  }

  lemma OneSlotIsEightOfCredit(capacity: nat, occupied: nat, after: nat)
    requires after <= occupied + 1
    ensures Credit(capacity, after) <= Credit(capacity, occupied) + 8
  {
  }

  lemma OtherCallsEarnNothing<K(!new), V(!new)>(tr: Traits<K, V>, t: Table<K, V>, op: Op<K, V>)
    requires TableInvariant(tr, t) && Enabled(tr, t, op) && !op.Insert? && t.size < EXACT_LIMIT
    ensures var u := Apply(tr, t, op);
      Credit(|u.slots|, u.occupied) <= if op.Rehash? then |u.slots| else Credit(|t.slots|, t.occupied)
  {
    hide TableInvariant, Present, RehashCapacity;
    if op.Rehash? {
      RehashedFacts(tr, t, op.target);
      RehashCapacityIsLeast(op.target, t.size, 0);
      RehashCapacityInRange(op.target, t.size);
      CapacityBands(RehashCapacity(op.target, t.size));
      CreditAfterRehash(RehashCapacity(op.target, t.size), t.size);
      NoCredit();
    }
  }

  lemma CreditAfterRehash(capacity: nat, size: nat)
    requires capacity <= EXACT_LIMIT || capacity == INSERT_LIMIT || capacity == MAX_CAPACITY
    requires 4 * size < 3 * capacity && size < EXACT_LIMIT
    ensures Credit(capacity, size) <= capacity
  {
  }

  /** Amortised cost: over every run with fewer than 2^29 entries live at a time, automatic rebuilds scan at most 8 old
      slots per Insert, at whatever capacity; each explicit rehash adds at most the capacity it ends at. */
  lemma {:induction false} CreditCoversRebuilds<K(!new), V(!new)>(tr: Traits<K, V>, ops: seq<Op<K, V>>, t: Table<K, V>,
                                                                  l: Ledger)
    requires Lawful(tr) && Run(tr, ops, t, l) && l.peak < EXACT_LIMIT
    ensures l.scanned + Credit(|t.slots|, t.occupied) <= 8 * l.inserts + l.rehashSum && t.size <= l.peak
  {
    hide Credit, TableInvariant;
    if ops == [] {
      NoCredit();
    } else {
      var op, rest := ops[|ops| - 1], ops[..|ops| - 1];
      var u, m :| Run(tr, rest, u, m) && Step(tr, u, m, op, t, l);
      CreditCoversRebuilds(tr, rest, u, m);
      match op
      case Insert(k, v) => InsertPaysEightOfCredit(tr, u, k, v);
      case _ => OtherCallsEarnNothing(tr, u, op); OtherCallsGrowNothing(tr, u, op);
    }
  }

  lemma NoCredit()
    ensures Credit(0, 0) == 0
  {
  }

  // ----- How often a compaction can happen -----

  /** From `t` to `u` by erases, clears, releases and inserts whose preparation scans nothing. */
  ghost predicate Quiet<K(!new), V(!new)>(tr: Traits<K, V>, t: Table<K, V>, ops: seq<Op<K, V>>, u: Table<K, V>) {
    if ops == [] then u == t
    else
      var op := ops[|ops| - 1];
      exists m :: Quiet(tr, t, ops[..|ops| - 1], m) && QuietStep(tr, m, op, u)
  }

  function Inserts<K, V>(ops: seq<Op<K, V>>): nat {
    if ops == [] then 0
    else Inserts(ops[..|ops| - 1]) + if ops[|ops| - 1].Insert? then 1 else 0
  }

  /** One quiet call. */
  ghost predicate QuietStep<K(!new), V(!new)>(tr: Traits<K, V>, m: Table<K, V>, op: Op<K, V>, u: Table<K, V>) {
    && TableInvariant(tr, m) && Enabled(tr, m, op)
    && !op.Rehash? && (op.Insert? ==> Scanned(m) == 0)
    && u == Apply(tr, m, op)
  }

  lemma QuietStepOccupiesOne<K(!new), V(!new)>(tr: Traits<K, V>, m: Table<K, V>, op: Op<K, V>, u: Table<K, V>)
    requires QuietStep(tr, m, op, u)
    ensures u.occupied <= m.occupied + if op.Insert? then 1 else 0
    ensures |u.slots| == |m.slots| || (op.Release? && u == Nothing())
         || (op.Insert? && m.slots == [] && |u.slots| == INITIAL_CAPACITY)
  {
    if op.Insert? {
      PreparedFacts(tr, m);
      PreparedSize(tr, m);
      StoreOccupiesOne(tr, Prepared(tr, m), op.key, op.value);
    }
  }

  /** Until the table is released it keeps its capacity and gains at most one occupied slot per insert; after that
      it has at most 8 slots, occupied by later inserts only. */
  lemma {:induction false} QuietOccupiesSlowly<K(!new), V(!new)>(tr: Traits<K, V>, t: Table<K, V>, ops: seq<Op<K, V>>,
                                                                u: Table<K, V>)
    requires Quiet(tr, t, ops, u) && t.slots != []
    ensures || (|u.slots| == |t.slots| && u.occupied <= t.occupied + Inserts(ops))
            || (Release in ops && |u.slots| <= INITIAL_CAPACITY && u.occupied <= Inserts(ops))
  {
    if ops != [] {
      var op := ops[|ops| - 1];
      var m :| Quiet(tr, t, ops[..|ops| - 1], m) && QuietStep(tr, m, op, u);
      QuietOccupiesSlowly(tr, t, ops[..|ops| - 1], m);
      QuietStepOccupiesOne(tr, m, op, u);
      assert Release in ops[..|ops| - 1] ==> Release in ops;
    }
  }

  /** After an insert that compacts the table, further inserts go by before an insert scans the table for a rebuild
      again: at least an eighth of the slots it then has, and those are as many as before unless the table was
      released in between. */
  lemma {:induction false} CompactionsAreSpaced<K(!new), V(!new)>(tr: Traits<K, V>, t: Table<K, V>, k: K, v: V,
                                                                  ops: seq<Op<K, V>>, u: Table<K, V>)
    requires TableInvariant(tr, t) && 0 < |t.slots| <= INSERT_LIMIT
    requires Decide(|t.slots|, t.size, t.occupied) == RebuildAt(|t.slots|)
    requires Quiet(tr, Inserted(tr, t, k, v), ops, u) && TableInvariant(tr, u)
    requires Scanned(u) > 0
    ensures Inserts(ops) >= |u.slots| / 8
    ensures Release !in ops ==> |u.slots| == |t.slots|
  {
    var c := |t.slots|;
    PreparedSize(tr, t);
    PreparedFacts(tr, t);
    StoreOccupiesOne(tr, Prepared(tr, t), k, v);
    var w := Inserted(tr, t, k, v);
    assert |w.slots| == c && w.occupied <= t.size + 1;
    QuietOccupiesSlowly(tr, w, ops, u);
    if |u.slots| == c {
      CompactionsAreApart(c, t.size, t.occupied, u.size, u.occupied);
    } else {
      SmallestRebuild(u.size, u.occupied);
    }
    DecisionFacts(|u.slots|, u.size, u.occupied);
  }

  /** A table of 8 slots is not rebuilt before six of them are occupied. */
  lemma SmallestRebuild(size: nat, occupied: nat)
    ensures ScanCost(INITIAL_CAPACITY, size, occupied) > 0 ==> occupied >= 6
  {
  }

  // ----- How large the table can get -----

  /** `capacity` is accounted for by the initial 8 slots, the largest live size or an explicit rehash. */
  predicate Proportionate(capacity: nat, l: Ledger) {
    capacity <= 8 || 5 * capacity <= 16 * l.peak || capacity <= l.rehashMax
  }

  lemma InsertProportionate<K(!new), V(!new)>(tr: Traits<K, V>, t: Table<K, V>, k: K, v: V, l: Ledger)
    requires TableInvariant(tr, t) && |t.slots| <= EXACT_LIMIT
    requires t.size <= l.peak && Proportionate(|t.slots|, l)
    ensures Proportionate(|Inserted(tr, t, k, v).slots|, l)
  {
  }

  lemma OtherCallsGrowNothing<K(!new), V(!new)>(tr: Traits<K, V>, t: Table<K, V>, op: Op<K, V>)
    requires TableInvariant(tr, t) && Enabled(tr, t, op) && !op.Insert?
    ensures Apply(tr, t, op).size <= t.size
    ensures !op.Rehash? ==> |Apply(tr, t, op).slots| <= |t.slots|
  {
  }

  lemma {:induction false} ChurnIsProportionate<K(!new), V(!new)>(tr: Traits<K, V>, ops: seq<Op<K, V>>, t: Table<K, V>,
                                                                  l: Ledger)
    requires Lawful(tr) && Run(tr, ops, t, l) && l.insertMax <= EXACT_LIMIT
    ensures t.size <= l.peak && Proportionate(|t.slots|, l)
  {
    if ops != [] {
      var op := ops[|ops| - 1];
      var u, m :| Run(tr, ops[..|ops| - 1], u, m) && Step(tr, u, m, op, t, l);
      ChurnIsProportionate(tr, ops[..|ops| - 1], u, m);
      match op
      case Insert(k, v) => InsertProportionate(tr, u, k, v, m);
      case _ => OtherCallsGrowNothing(tr, u, op);
    }
  }

  // ----- What a caller can see of it -----

  /** Five eighths of 2^29: with fewer entries than this the table has no reason to exceed 2^29 slots. */
  const MODEST_SIZE: nat := 0x1400_0000

  /** No explicit rehash asks for more than 2^29 slots. */
  predicate ModestTargets<K, V>(ops: seq<Op<K, V>>) {
    forall i :: 0 <= i < |ops| && ops[i].Rehash? ==> ops[i].target <= EXACT_LIMIT
  }

  lemma ModestRehash<K(!new), V(!new)>(tr: Traits<K, V>, t: Table<K, V>, target: nat)
    requires TableInvariant(tr, t) && t.size < MODEST_SIZE && target <= EXACT_LIMIT
    ensures RehashFits(target, t.size) && |Rehashed(tr, t, target).slots| <= EXACT_LIMIT
  {
    LimitsArePowersOfTwo();
    NextPowerOfTwoIsLeast(target, EXACT_LIMIT);
    RehashCapacityIsLeast(target, t.size, EXACT_LIMIT);
    RehashedFacts(tr, t, target);
  }

  lemma ModestCharge<K(!new), V(!new)>(tr: Traits<K, V>, t: Table<K, V>, l: Ledger, op: Op<K, V>)
    requires TableInvariant(tr, t) && Enabled(tr, t, op) && t.size < MODEST_SIZE && |t.slots| <= EXACT_LIMIT
    requires l.insertMax <= EXACT_LIMIT && l.rehashMax <= EXACT_LIMIT
    requires op.Rehash? ==> op.target <= EXACT_LIMIT
    ensures Charge(tr, l, t, op).insertMax <= EXACT_LIMIT && Charge(tr, l, t, op).rehashMax <= EXACT_LIMIT
  {
    if op.Rehash? {
      ModestRehash(tr, t, op.target);
    }
  }

  lemma ModestCapacity<K(!new), V(!new)>(tr: Traits<K, V>, t: Table<K, V>, l: Ledger)
    requires TableInvariant(tr, t) && Proportionate(|t.slots|, l)
    requires l.peak < MODEST_SIZE && l.rehashMax <= EXACT_LIMIT
    ensures |t.slots| <= EXACT_LIMIT
  {
    if t.slots != [] {
      CapacityBands(|t.slots|);
    }
  }

  /** As long as fewer than `MODEST_SIZE` entries are live at a time, no table of a run exceeds 2^29 slots. */
  lemma {:induction false} ModestRunsStaySmall<K(!new), V(!new)>(tr: Traits<K, V>, ops: seq<Op<K, V>>, t: Table<K, V>,
                                                                 l: Ledger)
    requires Lawful(tr) && Run(tr, ops, t, l) && ModestTargets(ops) && l.peak < MODEST_SIZE
    ensures TableInvariant(tr, t) && t.size <= l.peak
    ensures l.insertMax <= EXACT_LIMIT && l.rehashMax <= EXACT_LIMIT && |t.slots| <= EXACT_LIMIT
  {
    hide Proportionate, TableInvariant;
    RunKeepsInvariant(tr, ops, t, l);
    if ops != [] {
      var op, rest := ops[|ops| - 1], ops[..|ops| - 1];
      var u, m :| Run(tr, rest, u, m) && Step(tr, u, m, op, t, l);
      assert ModestTargets(rest);
      ModestRunsStaySmall(tr, rest, u, m);
      ModestCharge(tr, u, m, op);
      ChurnIsProportionate(tr, ops, t, l);
      ModestCapacity(tr, t, l);
    }
  }

  /** Over every run with fewer than 2^29 entries live at a time, automatic rebuilds scan at most 8 old slots per
      Insert, plus the capacities explicit rehashes ended at. */
  lemma {:induction false} AmortisedRebuildCost<K(!new), V(!new)>(tr: Traits<K, V>, ops: seq<Op<K, V>>, t: Table<K, V>,
                                                                  l: Ledger)
    requires Lawful(tr) && Run(tr, ops, t, l) && l.peak < EXACT_LIMIT
    ensures l.scanned <= 8 * l.inserts + l.rehashSum
    ensures RehashFree(ops) ==> l.scanned <= 8 * l.inserts
  {
    CreditCoversRebuilds(tr, ops, t, l);
    if RehashFree(ops) {
      NoRehashNoSurcharge(tr, ops, t, l);
    }
  }

  /** Churn cannot inflate the table: over every run with fewer than `MODEST_SIZE` entries live at a time, the
      capacity is at most 8, 16/5 of the largest live size met, or what an explicit rehash ended at. From twice as many
      on, no capacity there is exceeds 16/5 of the live size. */
  lemma {:induction false} ChurnCannotInflate<K(!new), V(!new)>(tr: Traits<K, V>, ops: seq<Op<K, V>>, t: Table<K, V>,
                                                                l: Ledger)
    requires Lawful(tr) && Run(tr, ops, t, l)
    requires (ModestTargets(ops) && l.peak < MODEST_SIZE) || l.peak >= 2 * MODEST_SIZE
    ensures Proportionate(|t.slots|, l)
    ensures RehashFree(ops) ==>
      |t.slots| <= 8 || 5 * |t.slots| <= 16 * l.peak
  {
    RunKeepsInvariant(tr, ops, t, l);
    if l.peak < MODEST_SIZE {
      ModestRunsStaySmall(tr, ops, t, l);
      ChurnIsProportionate(tr, ops, t, l);
    }
    if RehashFree(ops) {
      NoRehashNoSurcharge(tr, ops, t, l);
    }
  }

  /** No run ever holds more than `FILL_LIMIT` entries. */
  lemma {:induction false} PeakWithin<K(!new), V(!new)>(tr: Traits<K, V>, ops: seq<Op<K, V>>, t: Table<K, V>, l: Ledger)
    requires Lawful(tr) && Run(tr, ops, t, l)
    ensures l.peak <= FILL_LIMIT
  {
    if ops != [] {
      var op, rest := ops[|ops| - 1], ops[..|ops| - 1];
      var u, m :| Run(tr, rest, u, m) && Step(tr, u, m, op, t, l);
      PeakWithin(tr, rest, u, m);
      ApplyKeepsInvariant(tr, u, op);
    }
  }

  /** Nothing such a run has done can make a further call fail: every insert has room, and every rehash to at most
      2^29 slots works out. */
  lemma {:induction false} ModestRunsNeverStick<K(!new), V(!new)>(tr: Traits<K, V>, ops: seq<Op<K, V>>, t: Table<K, V>,
                                                                  l: Ledger, op: Op<K, V>)
    requires Lawful(tr) && Run(tr, ops, t, l) && ModestTargets(ops) && l.peak < MODEST_SIZE
    requires op.Rehash? ==> op.target <= EXACT_LIMIT
    ensures TableInvariant(tr, t) && Enabled(tr, t, op)
    ensures Run(tr, ops + [op], Apply(tr, t, op), Charge(tr, l, t, op))
  {
    ModestRunsStaySmall(tr, ops, t, l);
    if op.Rehash? {
      ModestRehash(tr, t, op.target);
    }
    RunsContinue(tr, ops, t, l, op);
  }

  lemma {:induction false} PeakAtMostInserts<K(!new), V(!new)>(tr: Traits<K, V>, ops: seq<Op<K, V>>, t: Table<K, V>,
                                                               l: Ledger)
    requires Lawful(tr) && Run(tr, ops, t, l)
    ensures t.size <= l.peak <= l.inserts == Inserts(ops)
  {
    if ops != [] {
      var op := ops[|ops| - 1];
      var u, m :| Run(tr, ops[..|ops| - 1], u, m) && Step(tr, u, m, op, t, l);
      PeakAtMostInserts(tr, ops[..|ops| - 1], u, m);
      match op
      case Insert(k, v) =>
        PreparedFacts(tr, u);
        StoreOccupiesOne(tr, Prepared(tr, u), k, v);
      case _ => OtherCallsGrowNothing(tr, u, op);
    }
  }

  /** Every history with fewer than `MODEST_SIZE` inserts and no rehash beyond 2^29 slots is a run: no precondition of
      any of its calls ever fails. */
  lemma {:induction false} ShortHistoriesRun<K(!new), V(!new)>(tr: Traits<K, V>, ops: seq<Op<K, V>>)
    returns (t: Table<K, V>, l: Ledger)
    requires Lawful(tr) && ModestTargets(ops) && Inserts(ops) < MODEST_SIZE
    ensures Run(tr, ops, t, l)
  {
    if ops == [] {
      t, l := Nothing(), Ledger(0, 0, 0, 0, 0, 0);
    } else {
      var op, rest := ops[|ops| - 1], ops[..|ops| - 1];
      assert ModestTargets(rest);
      var u, m := ShortHistoriesRun(tr, rest);
      PeakAtMostInserts(tr, rest, u, m);
      ModestRunsNeverStick(tr, rest, u, m, op);
      assert rest + [op] == ops;
      t, l := Apply(tr, u, op), Charge(tr, m, u, op);
    }
  }
}
