/** Runs that reach the limits of the map: every combination of counters a table can have, and what goes wrong at
    some of them. */
module LimitRuns {
  import opened Wrappers

  import opened LoadPolicy
  import opened MapRuns
  import opened ProbeTable
  import opened TableSteps
  import opened Words

  // ----- Filling a table -----

  /** Entries with pairwise inequivalent keys, none of them a sentinel. */
  ghost predicate NewKeys<K, V>(tr: Traits<K, V>, s: seq<Entry<K, V>>) {
    && (forall i :: 0 <= i < |s| ==> Live(tr, s[i]))
    && (forall i, j :: 0 <= i < j < |s| ==> !tr.equal(s[i].key, s[j].key))
  }

  lemma FewerNewKeys<K(!new), V(!new)>(tr: Traits<K, V>, s: seq<Entry<K, V>>)
    requires s != [] && NewKeys(tr, s)
    ensures NewKeys(tr, s[..|s| - 1])
  {
  }

  /** The calls `first`, then one insert for each entry of `s`. */
  function Filling<K, V>(first: seq<Op<K, V>>, s: seq<Entry<K, V>>): seq<Op<K, V>> {
    if s == [] then first
    else Filling(first, s[..|s| - 1]) + [Insert(s[|s| - 1].key, s[|s| - 1].value)]
  }

  lemma {:induction false} NotFilledIn<K(!new), V(!new)>(tr: Traits<K, V>, first: seq<Op<K, V>>,
                                                         s: seq<Entry<K, V>>, k: K)
    requires LastWrite(tr, first, k) == None
    requires forall i :: 0 <= i < |s| ==> !tr.equal(s[i].key, k)
    ensures LastWrite(tr, Filling(first, s), k) == None
  {
    if s != [] {
      NotFilledIn(tr, first, s[..|s| - 1], k);
      assert Filling(first, s)[..|Filling(first, s)| - 1] == Filling(first, s[..|s| - 1]);
    }
  }

  /** After filling in all but the last entry of `s`, its key is new to the table. */
  lemma NextKeyIsNew<K(!new), V(!new)>(tr: Traits<K, V>, first: seq<Op<K, V>>, s: seq<Entry<K, V>>, t: Table<K, V>,
                                       l: Ledger)
    requires Lawful(tr) && s != [] && NewKeys(tr, s) && LastWrite(tr, first, s[|s| - 1].key) == None
    requires Run(tr, Filling(first, s[..|s| - 1]), t, l)
    ensures TableInvariant(tr, t)
    ensures !Stores(tr, ProbeTable.Contents(tr, t.slots), s[|s| - 1].key) && !Sentinel(tr, s[|s| - 1].key)
  {
    hide TableInvariant, Present, Stores, Run, LastWrite;
    var rest, k := s[..|s| - 1], s[|s| - 1].key;
    RunKeepsInvariant(tr, Filling(first, rest), t, l);
    NotFilledIn(tr, first, rest, k);
    FindSeesLastWrite(tr, Filling(first, rest), t, l, k);
    SlotsAgreeWithMap(tr, t, k);
  }

  /** Up to `FILL_LIMIT` new keys can be inserted into an empty map one after the other. */
  lemma {:induction false} FillingRuns<K(!new), V(!new)>(tr: Traits<K, V>, s: seq<Entry<K, V>>)
    returns (t: Table<K, V>, l: Ledger)
    requires Lawful(tr) && NewKeys(tr, s) && |s| <= FILL_LIMIT
    ensures Run(tr, Filling([], s), t, l) && TableInvariant(tr, t)
    ensures Filled(t) && t.size == |s| && l.inserts == |s| && l.rehashSum == 0
  {
    if s == [] {
      t, l := Nothing(), Ledger(0, 0, 0, 0, 0, 0);
    } else {
      var k, v := s[|s| - 1].key, s[|s| - 1].value;
      var u, m := FillingRuns(tr, s[..|s| - 1]);
      NextKeyIsNew(tr, [], s, u, m);
      FilledCapacity(tr, u);
      FilledAfterInsert(tr, u, k, v);
      InsertedFacts(tr, u, k, v);
      RunsContinue(tr, Filling([], s[..|s| - 1]), u, m, Insert(k, v));
      t, l := Inserted(tr, u, k, v), Charge(tr, m, u, Insert(k, v));
    }
  }

  /** Inserting `FILL_LIMIT` new keys into an empty map always ends in a table to which nothing can be inserted any
      more, not even an update: the next insert would rebuild it at capacity 0. */
  lemma InsertEventuallyWraps<K(!new), V(!new)>(tr: Traits<K, V>, s: seq<Entry<K, V>>)
    returns (t: Table<K, V>, l: Ledger)
    requires Lawful(tr) && NewKeys(tr, s) && |s| == FILL_LIMIT
    ensures Run(tr, Filling([], s), t, l) && TableInvariant(tr, t) && t.size == t.occupied == FILL_LIMIT
    ensures |t.slots| == MAX_CAPACITY && Decide(|t.slots|, t.size, t.occupied) == RebuildAt(0)
    ensures forall k, v :: !Enabled(tr, t, Insert(k, v))
  {
    t, l := FillingRuns(tr, s);
    FilledTooFar(tr, t);
  }

  // ----- Every combination of counters -----

  /** A map made to reserve a capacity takes new keys up to 75% of it without ever changing the capacity. */
  lemma {:induction false} ReservedFillingRuns<K(!new), V(!new)>(tr: Traits<K, V>, capacity: nat, s: seq<Entry<K, V>>)
    returns (t: Table<K, V>, l: Ledger)
    requires Lawful(tr) && NewKeys(tr, s)
    requires IsPowerOfTwo(capacity) && INITIAL_CAPACITY <= capacity <= MAX_CAPACITY
    requires 4 * |s| <= 3 * capacity && |s| < FILL_LIMIT
    ensures Run(tr, Filling([Rehash(capacity)], s), t, l) && TableInvariant(tr, t)
    ensures |t.slots| == capacity && t.size == t.occupied == |s|
    ensures l.inserts == |s| && l.rehashSum == capacity
    ensures capacity <= INSERT_LIMIT || |s| <= EXACT_LIMIT ==> l.scanned == 0
    decreases |s|
  {
    hide TableInvariant, Stores, Run, Inserted, NewKeys, Sentinel, IsPowerOfTwo, Decide;
    var first: seq<Op<K, V>> := [Rehash(capacity)];
    if s == [] {
      t, l := ReservedRun(tr, capacity);
    } else {
      var k, v := s[|s| - 1].key, s[|s| - 1].value;
      FewerNewKeys(tr, s);
      var u, m := ReservedFillingRuns(tr, capacity, s[..|s| - 1]);
      assert LastWrite(tr, first[..0], k) == None;
      NextKeyIsNew(tr, first, s, u, m);
      FillsInPlace(tr, u, k, v);
      RunsContinue(tr, Filling(first, s[..|s| - 1]), u, m, Insert(k, v));
      t, l := Inserted(tr, u, k, v), Charge(tr, m, u, Insert(k, v));
    }
  }

  lemma ReservedRun<K(!new), V(!new)>(tr: Traits<K, V>, capacity: nat) returns (t: Table<K, V>, l: Ledger)
    requires Lawful(tr) && IsPowerOfTwo(capacity) && INITIAL_CAPACITY <= capacity <= MAX_CAPACITY
    ensures Run(tr, [Rehash(capacity)], t, l) && TableInvariant(tr, t)
    ensures |t.slots| == capacity && t.size == t.occupied == 0
    ensures l == Ledger(0, 0, 0, 0, capacity, capacity)
  {
    var op: Op<K, V> := Rehash(capacity);
    var start := Nothing<K, V>();
    FirstCandidateInRange(capacity);
    RehashCapacityInRange(capacity, 0);
    RehashCapacityIsLeast(capacity, 0, capacity);
    RehashedFacts(tr, start, capacity);
    t, l := Apply(tr, start, op), Charge(tr, Ledger(0, 0, 0, 0, 0, 0), start, op);
    RunsContinue(tr, [], start, Ledger(0, 0, 0, 0, 0, 0), op);
    assert [] + [op] == [op];
  }

  /** `longer` continues `ops` with erases only. */
  ghost predicate ErasesAfter<K, V>(ops: seq<Op<K, V>>, longer: seq<Op<K, V>>) {
    ops <= longer && forall i :: |ops| <= i < |longer| ==> longer[i].Erase?
  }

  lemma EraseOne<K(!new), V(!new)>(tr: Traits<K, V>, t: Table<K, V>) returns (k: K)
    requires TableInvariant(tr, t) && t.size > 0
    ensures var u := Erased(tr, t, k);
      TableInvariant(tr, u) && |u.slots| == |t.slots| && u.size == t.size - 1 && u.occupied == t.occupied
  {
    NoneLive(tr, t.slots);
    var i :| 0 <= i < |t.slots| && Live(tr, t.slots[i]);
    k := t.slots[i].key;
    assert Hit(tr, t.slots, k, i);
    ErasedFacts(tr, t, k);
  }

  /** Live entries can be erased down to any number; the slots they occupied stay occupied. */
  lemma {:induction false} ErasingRuns<K(!new), V(!new)>(tr: Traits<K, V>, ops: seq<Op<K, V>>, t: Table<K, V>,
                                                         l: Ledger, size: nat)
    returns (longer: seq<Op<K, V>>, u: Table<K, V>)
    requires Lawful(tr) && Run(tr, ops, t, l) && TableInvariant(tr, t) && size <= t.size
    ensures ErasesAfter(ops, longer) && Run(tr, longer, u, l) && TableInvariant(tr, u)
    ensures |u.slots| == |t.slots| && u.size == size && u.occupied == t.occupied
    decreases t.size - size
  {
    hide TableInvariant, Run, Erased;
    if size == t.size {
      longer, u := ops, t;
    } else {
      var more, w := ErasingRuns(tr, ops, t, l, size + 1);
      var k := EraseOne(tr, w);
      RunsContinue(tr, more, w, l, Erase(k));
      longer, u := more + [Erase(k)], Erased(tr, w, k);
    }
  }

  /** `Balanced` is exact: any counters it admits are those of some run, whatever the hash and the keys. */
  lemma CountersAreReached<K(!new), V(!new)>(tr: Traits<K, V>, s: seq<Entry<K, V>>, capacity: nat, size: nat)
    returns (ops: seq<Op<K, V>>, t: Table<K, V>, l: Ledger)
    requires Lawful(tr) && NewKeys(tr, s) && Balanced(capacity, size, |s|)
    ensures Run(tr, ops, t, l) && TableInvariant(tr, t)
    ensures |t.slots| == capacity && t.size == size && t.occupied == |s|
  {
    hide TableInvariant, Run, NewKeys;
    var u;
    if capacity == 0 {
      u, l, ops := Nothing(), Ledger(0, 0, 0, 0, 0, 0), [];
      EmptyRun(tr);
    } else if |s| == FILL_LIMIT {
      u, l := InsertEventuallyWraps(tr, s);
      ops := Filling([], s);
      CapacityBands(capacity);
    } else {
      u, l := ReservedFillingRuns(tr, capacity, s);
      ops := Filling([Rehash(capacity)], s);
    }
    ops, t := ErasingRuns(tr, ops, u, l, size);
  }

  lemma EmptyRun<K(!new), V(!new)>(tr: Traits<K, V>)
    requires Lawful(tr)
    ensures Run<K, V>(tr, [], Nothing(), Ledger(0, 0, 0, 0, 0, 0)) && TableInvariant(tr, Nothing<K, V>())
  {
  }

  /** A table of 2^30 slots is doubled although only an eighth of it is live, whatever the hash: reserve the slots,
      insert 0x3000_0000 new keys, erase all but 0x800_0000, and insert any key. */
  lemma DoublesAtAnEighth<K(!new), V(!new)>(tr: Traits<K, V>, s: seq<Entry<K, V>>, k: K, v: V)
    returns (ops: seq<Op<K, V>>, t: Table<K, V>, l: Ledger)
    requires Lawful(tr) && NewKeys(tr, s) && |s| == 0x3000_0000
    ensures ErasesAfter(Filling([Rehash(INSERT_LIMIT)], s), ops) && Run(tr, ops, t, l) && TableInvariant(tr, t)
    ensures 8 * t.size == |t.slots| == INSERT_LIMIT && Enabled(tr, t, Insert(k, v))
    ensures |Inserted(tr, t, k, v).slots| == 2 * INSERT_LIMIT
  {
    hide TableInvariant, Run, NewKeys, Stored, IsPowerOfTwo;
    LimitsArePowersOfTwo();
    var u;
    u, l := ReservedFillingRuns(tr, INSERT_LIMIT, s);
    ops, t := ErasingRuns(tr, Filling([Rehash(INSERT_LIMIT)], s), u, l, 0x800_0000);
    PreparedFacts(tr, t);
    PreparedSize(tr, t);
    StoreOccupiesOne(tr, Prepared(tr, t), k, v);
  }

  /** A quarter-full table of 2^31 slots, reached by reserving them, for which the loop of a rehash at more than
      2^30 slots never stops. */
  lemma RehashHangs<K(!new), V(!new)>(tr: Traits<K, V>, s: seq<Entry<K, V>>) returns (t: Table<K, V>, l: Ledger)
    requires Lawful(tr) && NewKeys(tr, s) && |s| == EXACT_LIMIT
    ensures Run(tr, Filling([Rehash(MAX_CAPACITY)], s), t, l) && !Enabled(tr, t, Rehash(0x4000_0001))
    ensures forall n: nat :: TooSmall(Candidate(FirstCandidate(0x4000_0001), n), t.size)
  {
    hide TableInvariant, Run, NewKeys, IsPowerOfTwo;
    LimitsArePowersOfTwo();
    t, l := ReservedFillingRuns(tr, MAX_CAPACITY, s);
    RehashNeverStops();
  }

  // ----- Rebuilding at every update -----

  /** The calls `first`, then `n` updates of one key. */
  function Updating<K, V>(first: seq<Op<K, V>>, k: K, v: V, n: nat): seq<Op<K, V>> {
    if n == 0 then first else Updating(first, k, v, n - 1) + [Insert(k, v)]
  }

  lemma {:induction false} UpdatesRescan<K(!new), V(!new)>(tr: Traits<K, V>, ops: seq<Op<K, V>>, t: Table<K, V>,
                                                           l: Ledger, k: K, v: V, n: nat)
    returns (u: Table<K, V>, m: Ledger)
    requires Lawful(tr) && Run(tr, ops, t, l) && TableInvariant(tr, t)
    requires |t.slots| == MAX_CAPACITY && EXACT_LIMIT <= t.size < 3 * (EXACT_LIMIT / 2)
    requires Stores(tr, ProbeTable.Contents(tr, t.slots), k) && !Sentinel(tr, k)
    ensures Run(tr, Updating(ops, k, v, n), u, m) && TableInvariant(tr, u)
    ensures |u.slots| == MAX_CAPACITY && u.size == t.size
    ensures Stores(tr, ProbeTable.Contents(tr, u.slots), k)
    ensures m.inserts == l.inserts + n && m.scanned == l.scanned + n * MAX_CAPACITY && m.rehashSum == l.rehashSum
  {
    hide TableInvariant, Stores, Run, Inserted, Sentinel, Lawful;
    if n == 0 {
      u, m := t, l;
    } else {
      var w, j := UpdatesRescan(tr, ops, t, l, k, v, n - 1);
      UpdateRescans(tr, w, k, v);
      RunsContinue(tr, Updating(ops, k, v, n - 1), w, j, Insert(k, v));
      u, m := Inserted(tr, w, k, v), Charge(tr, j, w, Insert(k, v));
    }
  }

  /** The amortised bound fails at 2^31 slots: a run that reserves them, fills a quarter of them and then updates one
      present key `n` times scans all of them at every update, beyond any number of slots per insert. */
  lemma AmortisedBoundFails<K(!new), V(!new)>(tr: Traits<K, V>, s: seq<Entry<K, V>>, n: nat)
    returns (t: Table<K, V>, l: Ledger)
    requires Lawful(tr) && NewKeys(tr, s) && |s| == EXACT_LIMIT
    ensures Run(tr, Updating(Filling([Rehash(MAX_CAPACITY)], s), s[|s| - 1].key, s[|s| - 1].value, n), t, l)
    ensures l.inserts == EXACT_LIMIT + n && l.scanned == n * MAX_CAPACITY && l.rehashSum == MAX_CAPACITY
    ensures n >= 4 ==> l.scanned > 8 * l.inserts + l.rehashSum
  {
    var ops := Filling([Rehash(MAX_CAPACITY)], s);
    var e := s[|s| - 1];
    LimitsArePowersOfTwo();
    var u, m := ReservedFillingRuns(tr, MAX_CAPACITY, s);
    FindSeesLastWrite(tr, ops, u, m, e.key);
    assert LastWrite(tr, ops, e.key) == Some(e.value);
    SlotsAgreeWithMap(tr, u, e.key);
    t, l := UpdatesRescan(tr, ops, u, m, e.key, e.value, n);
  }

  /** It fails without any reservation too: fill an empty map until it can take no more, erase two keys, and update one
      of those left `n` times. */
  lemma AmortisedBoundFailsUnreserved<K(!new), V(!new)>(tr: Traits<K, V>, s: seq<Entry<K, V>>, v: V, n: nat)
    returns (ops: seq<Op<K, V>>, k: K, t: Table<K, V>, l: Ledger)
    requires Lawful(tr) && NewKeys(tr, s) && |s| == FILL_LIMIT
    ensures ErasesAfter(Filling([], s), ops) && Run(tr, Updating(ops, k, v, n), t, l)
    ensures l.inserts == FILL_LIMIT + n && l.scanned >= n * MAX_CAPACITY && l.rehashSum == 0
    ensures n >= 4 ==> l.scanned > 8 * l.inserts
  {
    hide TableInvariant, Run, NewKeys, Lawful;
    var u, m := FillingRuns(tr, s);
    FilledTooFar(tr, u);
    var w;
    ops, w := ErasingRuns(tr, Filling([], s), u, m, FILL_LIMIT - 2);
    k := AnyStored(tr, w);
    t, l := UpdatesRescan(tr, ops, w, m, k, v, n);
  }

  lemma AnyStored<K(!new), V(!new)>(tr: Traits<K, V>, t: Table<K, V>) returns (k: K)
    requires TableInvariant(tr, t) && t.size > 0
    ensures Stores(tr, ProbeTable.Contents(tr, t.slots), k) && !Sentinel(tr, k)
  {
    NoneLive(tr, t.slots);
    var i :| 0 <= i < |t.slots| && Live(tr, t.slots[i]);
    k := t.slots[i].key;
    assert Hit(tr, t.slots, k, i);
    SlotsAgreeWithMap(tr, t, k);
  }
}
