/** The operations of the map as functions from table to table, the invariant each of them keeps, and
    what each of them does to the represented map. */
module TableSteps {
  import opened Wrappers

  import opened HashIndex
  import opened LoadPolicy
  import opened PowerRounding
  import opened ProbeTable
  import opened Words

  /** The fields of the map: the slot array (its length is the capacity) and the two counters. */
  datatype Table<K, V> = Table(slots: seq<Entry<K, V>>, size: nat, occupied: nat)

  /** The whole-table invariant. */
  ghost predicate TableInvariant<K(!new), V>(tr: Traits<K, V>, t: Table<K, V>) {
    && Lawful(tr)
    && t.size == LiveCount(tr, t.slots)
    && t.occupied == UsedCount(tr, t.slots)
    && Balanced(|t.slots|, t.size, t.occupied)
    && (t.slots != [] ==> WellFormed(tr, t.slots))
  }

  ghost predicate Present<K, V>(tr: Traits<K, V>, s: seq<Entry<K, V>>, k: K) {
    exists i :: Hit(tr, s, k, i)
  }

  /** The slot of the live key equal to `k`. */
  ghost function HitSlot<K, V>(tr: Traits<K, V>, s: seq<Entry<K, V>>, k: K): (i: nat)
    requires Present(tr, s, k)
    ensures Hit(tr, s, k, i)
  {
    var i :| Hit(tr, s, k, i);
    i
  }

  lemma HitSlotIs<K(!new), V>(tr: Traits<K, V>, s: seq<Entry<K, V>>, k: K, i: nat)
    requires Lawful(tr) && Distinct(tr, s) && Hit(tr, s, k, i)
    ensures Present(tr, s, k) && HitSlot(tr, s, k) == i
  {
    var h := HitSlot(tr, s, k);
    assert Hit(tr, s, s[h].key, i);
  }

  // ----- The operations -----

  function Nothing<K, V>(): Table<K, V> {
    Table([], 0, 0)
  }

  /** `RehashTo`. */
  ghost function Rebuilt<K, V>(tr: Traits<K, V>, t: Table<K, V>, capacity: nat): Table<K, V>
    requires IsPowerOfTwo(capacity)
  {
    Table(Refill(tr, t.slots, |t.slots|, capacity), t.size, t.size)
  }

  /** `EnsureCapacityForInsert`. */
  ghost function Prepared<K(!new), V>(tr: Traits<K, V>, t: Table<K, V>): Table<K, V>
    requires TableInvariant(tr, t) && Fits(|t.slots|, t.size, t.occupied)
  {
    DecisionFacts(|t.slots|, t.size, t.occupied);
    match Decide(|t.slots|, t.size, t.occupied)
    case Keep => t
    case RebuildAt(c) => Rebuilt(tr, t, c)
  }

  predicate Sentinel<K(==), V>(tr: Traits<K, V>, k: K) {
    k == tr.empty || k == tr.tombstone
  }

  /** A key that is present keeps its slot and its stored form and gets the new value; a new key takes
      the first slot of its probe sequence that is not live, and counts as newly occupied only if that
      slot was empty. */
  ghost function Stored<K, V>(tr: Traits<K, V>, t: Table<K, V>, k: K, v: V): Table<K, V>
    requires IsPowerOfTwo(|t.slots|)
  {
    if Present(tr, t.slots, k) then
      var i := HitSlot(tr, t.slots, k);
      t.(slots := t.slots[i := Entry(t.slots[i].key, v)])
    else
      var w := FirstFree(tr, t.slots, Home(tr, k, |t.slots|));
      if w < |t.slots| then
        Table(t.slots[w := Entry(k, v)], t.size + 1, t.occupied + if Used(tr, t.slots[w]) then 0 else 1)
      else t
  }

  /** `Insert`; inserting a sentinel aborts, but only after the table has been prepared. */
  ghost function Inserted<K(!new), V>(tr: Traits<K, V>, t: Table<K, V>, k: K, v: V): Table<K, V>
    requires TableInvariant(tr, t) && Fits(|t.slots|, t.size, t.occupied)
  {
    PreparedFacts(tr, t);
    if Sentinel(tr, k) then Prepared(tr, t) else Stored(tr, Prepared(tr, t), k, v)
  }

  /** `Erase`. */
  ghost function Erased<K, V>(tr: Traits<K, V>, t: Table<K, V>, k: K): Table<K, V> {
    if Present(tr, t.slots, k) then
      Table(t.slots[HitSlot(tr, t.slots, k) := Entry(tr.tombstone, tr.blank)],
            if t.size > 0 then t.size - 1 else 0, t.occupied)
    else t
  }

  /** `Clear` keeps the slot array. */
  function Cleared<K, V>(tr: Traits<K, V>, t: Table<K, V>): Table<K, V> {
    Table(if t.slots != [] && t.occupied > 0 then Zeroed(tr, |t.slots|) else t.slots, 0, 0)
  }

  /** `Release` gives the slot array back. */
  function Released<K, V>(t: Table<K, V>): Table<K, V> {
    if t.slots != [] then Nothing() else t
  }

  /** The capacity `Rehash` settles on. */
  function RehashCapacity(target: nat, size: nat): (r: nat)
    ensures IsPowerOfTwo(r) && INITIAL_CAPACITY <= r
  {
    LeastFittingIsPowerOfTwo(FirstCandidate(target), size);
    LeastFitting(FirstCandidate(target), size)
  }

  /** `Rehash`. */
  ghost function Rehashed<K, V>(tr: Traits<K, V>, t: Table<K, V>, target: nat): Table<K, V> {
    if t.size == 0 && target == 0 then Released(t)
    else
      var c := RehashCapacity(target, t.size);
      if c != |t.slots| || t.occupied > t.size then Rebuilt(tr, t, c) else t
  }

  // ----- The finite map on key classes that the table refines -----

  ghost predicate Stores<K(!new), V>(tr: Traits<K, V>, m: map<K, V>, k: K) {
    exists q :: q in m && tr.equal(q, k)
  }

  /** The stored key equal to `k`. */
  ghost function StoredKey<K(!new), V>(tr: Traits<K, V>, m: map<K, V>, k: K): (q: K)
    requires Stores(tr, m, k)
    ensures q in m && tr.equal(q, k)
  {
    var q :| q in m && tr.equal(q, k);
    q
  }

  ghost predicate Inequivalent<K(!new), V>(tr: Traits<K, V>, m: map<K, V>) {
    forall p, q :: p in m && q in m && tr.equal(p, q) ==> p == q
  }

  ghost function MapFind<K(!new), V>(tr: Traits<K, V>, m: map<K, V>, k: K): Option<V> {
    if Stores(tr, m, k) then Some(m[StoredKey(tr, m, k)]) else None
  }

  ghost function MapInsert<K(!new), V>(tr: Traits<K, V>, m: map<K, V>, k: K, v: V): map<K, V> {
    if Sentinel(tr, k) then m
    else if Stores(tr, m, k) then m[StoredKey(tr, m, k) := v] else m[k := v]
  }

  ghost function MapErase<K(!new), V>(tr: Traits<K, V>, m: map<K, V>, k: K): map<K, V> {
    if Stores(tr, m, k) then m - {StoredKey(tr, m, k)} else m
  }

  /** Looking a key up in the slots is looking it up in the represented map. */
  lemma SlotsAgreeWithMap<K(!new), V>(tr: Traits<K, V>, t: Table<K, V>, k: K)
    requires TableInvariant(tr, t)
    ensures Inequivalent(tr, Contents(tr, t.slots))
    ensures |Contents(tr, t.slots)| == t.size
    ensures Present(tr, t.slots, k) <==> Stores(tr, Contents(tr, t.slots), k)
    ensures Present(tr, t.slots, k) ==>
      var i := HitSlot(tr, t.slots, k);
      StoredKey(tr, Contents(tr, t.slots), k) == t.slots[i].key &&
      MapFind(tr, Contents(tr, t.slots), k) == Some(t.slots[i].value)
  {
    var s, m := t.slots, Contents(tr, t.slots);
    ContentsRepresents(tr, s);
    forall p, q | p in m && q in m && tr.equal(p, q) ensures p == q {
      var i :| 0 <= i < |s| && Live(tr, s[i]) && s[i].key == p;
      var j :| 0 <= j < |s| && Live(tr, s[j]) && s[j].key == q;
      assert Hit(tr, s, s[j].key, i);
    }
    if Present(tr, s, k) {
      var i := HitSlot(tr, s, k);
      assert s[i].key in m && tr.equal(s[i].key, k);
      var q := StoredKey(tr, m, k);
      assert tr.equal(q, s[i].key);
    }
    if Stores(tr, m, k) {
      var q := StoredKey(tr, m, k);
      var i :| 0 <= i < |s| && Live(tr, s[i]) && s[i].key == q;
      assert Hit(tr, s, k, i);
    }
  }

  // ----- Every operation keeps the invariant and refines the map operation -----

  /** Rebuilding at any legal capacity above 4/3 of the live entries. */
  lemma RebuiltFacts<K(!new), V>(tr: Traits<K, V>, t: Table<K, V>, c: nat)
    requires TableInvariant(tr, t)
    requires IsPowerOfTwo(c) && INITIAL_CAPACITY <= c <= MAX_CAPACITY && 4 * t.size < 3 * c
    ensures TableInvariant(tr, Rebuilt(tr, t, c))
    ensures Contents(tr, Rebuilt(tr, t, c).slots) == Contents(tr, t.slots)
    ensures |Rebuilt(tr, t, c).slots| == c && Rebuilt(tr, t, c).occupied == t.size
    ensures forall i :: 0 <= i < c ==> Rebuilt(tr, t, c).slots[i].key != tr.tombstone
  {
    assert t.slots[..|t.slots|] == t.slots;
    RefillFacts(tr, t.slots, |t.slots|, c);
  }

  lemma PreparedFacts<K(!new), V>(tr: Traits<K, V>, t: Table<K, V>)
    requires TableInvariant(tr, t) && Fits(|t.slots|, t.size, t.occupied)
    ensures var u := Prepared(tr, t);
      && TableInvariant(tr, u)
      && Contents(tr, u.slots) == Contents(tr, t.slots)
      && u.size == t.size
      && IsPowerOfTwo(|u.slots|) && |u.slots| >= INITIAL_CAPACITY
      && Roomy(|u.slots|, u.occupied) && 4 * u.occupied < 3 * |u.slots|
  {
    DecisionFacts(|t.slots|, t.size, t.occupied);
    match Decide(|t.slots|, t.size, t.occupied)
    case Keep =>
    case RebuildAt(c) => RebuiltFacts(tr, t, c);
  }

  /** A table below its occupied limit has an empty slot, and every probe sequence a free one. */
  lemma ProbeEnds<K(!new), V>(tr: Traits<K, V>, t: Table<K, V>, k: K) returns (e: nat)
    requires TableInvariant(tr, t) && t.slots != []
    ensures e < |t.slots| && !Used(tr, t.slots[e])
    ensures var h := Home(tr, k, |t.slots|); IsFirstFree(tr, t.slots, h, FirstFree(tr, t.slots, h))
  {
    e := EmptySlotExists(tr, t.slots);
    FirstFreeExists(tr, t.slots, Home(tr, k, |t.slots|), 0, e);
  }

  lemma StoredOver<K(!new), V>(tr: Traits<K, V>, t: Table<K, V>, k: K, v: V)
    requires TableInvariant(tr, t) && t.slots != [] && !Sentinel(tr, k)
    requires Present(tr, t.slots, k)
    ensures TableInvariant(tr, Stored(tr, t, k, v))
    ensures Contents(tr, Stored(tr, t, k, v).slots) == MapInsert(tr, Contents(tr, t.slots), k, v)
  {
    var i := HitSlot(tr, t.slots, k);
    SlotsAgreeWithMap(tr, t, k);
    StoreValue(tr, t.slots, v, i);
    CountsAfterUpdate(tr, t.slots, i, Entry(t.slots[i].key, v));
  }

  lemma OneMoreBalanced(capacity: nat, occupied: nat)
    requires IsPowerOfTwo(capacity) && capacity >= INITIAL_CAPACITY && Roomy(capacity, occupied)
    ensures 4 * (occupied + 1) <= 3 * capacity && occupied + 1 <= FILL_LIMIT
  {
    var eighth := Eighth(capacity);
    OneMoreInEighths(eighth, occupied);
  }

  lemma OneMoreInEighths(eighth: nat, occupied: nat)
    ensures occupied < 6 * eighth ==> 4 * (occupied + 1) <= 3 * (8 * eighth)
  {
  }

  lemma Eighth(capacity: nat) returns (eighth: nat)
    requires IsPowerOfTwo(capacity) && capacity >= INITIAL_CAPACITY
    ensures capacity == 8 * eighth
  {
    DivisibleByEight(capacity);
    eighth := capacity / 8;
  }

  lemma FreshCounts<K(!new), V>(tr: Traits<K, V>, s: seq<Entry<K, V>>, w: nat, e: Entry<K, V>)
    requires w < |s| && !Live(tr, s[w]) && Live(tr, e)
    ensures LiveCount(tr, s[w := e]) == LiveCount(tr, s) + 1
    ensures UsedCount(tr, s[w := e]) == UsedCount(tr, s) + if Used(tr, s[w]) then 0 else 1
    ensures LiveCount(tr, s[w := e]) <= UsedCount(tr, s[w := e])
  {
    CountsAfterUpdate(tr, s, w, e);
    LiveAtMostUsed(tr, s[w := e]);
  }

  lemma StoredFresh<K(!new), V>(tr: Traits<K, V>, t: Table<K, V>, k: K, v: V)
    requires TableInvariant(tr, t) && t.slots != [] && Roomy(|t.slots|, t.occupied) && !Sentinel(tr, k)
    requires !Present(tr, t.slots, k)
    ensures TableInvariant(tr, Stored(tr, t, k, v))
    ensures Contents(tr, Stored(tr, t, k, v).slots) == MapInsert(tr, Contents(tr, t.slots), k, v)
  {
    var s := t.slots;
    var e := ProbeEnds(tr, t, k);
    var w := FirstFree(tr, s, Home(tr, k, |s|));
    assert !Stores(tr, Contents(tr, s), k) by { SlotsAgreeWithMap(tr, t, k); }
    StoreNew(tr, s, k, v, w);
    FreshCounts(tr, s, w, Entry(k, v));
    OneMoreBalanced(|s|, t.occupied);
  }

  lemma StoredFacts<K(!new), V>(tr: Traits<K, V>, t: Table<K, V>, k: K, v: V)
    requires TableInvariant(tr, t) && t.slots != [] && Roomy(|t.slots|, t.occupied) && !Sentinel(tr, k)
    ensures TableInvariant(tr, Stored(tr, t, k, v))
    ensures Contents(tr, Stored(tr, t, k, v).slots) == MapInsert(tr, Contents(tr, t.slots), k, v)
  {
    if Present(tr, t.slots, k) {
      StoredOver(tr, t, k, v);
    } else {
      StoredFresh(tr, t, k, v);
    }
  }

  lemma InsertedFacts<K(!new), V>(tr: Traits<K, V>, t: Table<K, V>, k: K, v: V)
    requires TableInvariant(tr, t) && Fits(|t.slots|, t.size, t.occupied)
    ensures TableInvariant(tr, Inserted(tr, t, k, v))
    ensures Contents(tr, Inserted(tr, t, k, v).slots) == MapInsert(tr, Contents(tr, t.slots), k, v)
  {
    PreparedFacts(tr, t);
    if !Sentinel(tr, k) {
      StoredFacts(tr, Prepared(tr, t), k, v);
    }
  }

  /** The first insert into an unallocated table makes one of 8 slots. */
  lemma FirstInsertMakesEight<K(!new), V>(tr: Traits<K, V>, k: K, v: V)
    requires Lawful(tr)
    ensures Fits(0, 0, 0) && TableInvariant(tr, Nothing<K, V>())
    ensures |Inserted(tr, Nothing(), k, v).slots| == 8
  {
    PreparedFacts(tr, Nothing<K, V>());
  }

  /** Inserting, key by key: the value of a key that is there is replaced and its stored form kept; a new key comes in
      as it is given; a sentinel changes nothing. */
  lemma InsertedKeyByKey<K(!new), V>(tr: Traits<K, V>, t: Table<K, V>, k: K, v: V)
    requires TableInvariant(tr, t) && Fits(|t.slots|, t.size, t.occupied)
    ensures var m, n := Contents(tr, t.slots), Contents(tr, Inserted(tr, t, k, v).slots);
      && (k == tr.empty || k == tr.tombstone ==> n == m)
      && (k != tr.empty && k != tr.tombstone ==>
        && (forall q :: q in m && tr.equal(q, k) ==> n == m[q := v])
        && ((forall q :: q in m ==> !tr.equal(q, k)) ==> n == m[k := v]))
  {
    InsertedFacts(tr, t, k, v);
    SlotsAgreeWithMap(tr, t, k);
    var m := Contents(tr, t.slots);
    forall q | q in m && tr.equal(q, k) ensures Stores(tr, m, k) && StoredKey(tr, m, k) == q {
      var p := StoredKey(tr, m, k);
      assert tr.equal(p, q);
    }
  }

  /** A new key goes over a tombstone, and occupies no further slot, exactly if its probe sequence meets a tombstone
      before any empty slot. */
  lemma TombstonesAreReused<K(!new), V>(tr: Traits<K, V>, t: Table<K, V>, k: K, v: V)
    requires TableInvariant(tr, t) && t.slots != [] && !Sentinel(tr, k) && !Present(tr, t.slots, k)
    ensures var u, s, home := Stored(tr, t, k, v), t.slots, Home(tr, k, |t.slots|);
      && u.size == t.size + 1
      && u.occupied == t.occupied + (if MeetsTombstone(tr, s, home) then 0 else 1)
  {
    var s, home := t.slots, Home(tr, k, |t.slots|);
    var e := ProbeEnds(tr, t, k);
    var w := FirstFree(tr, s, home);
    if Used(tr, s[w]) {
      assert TombstoneFirst(tr, s, home, w);
    }
  }

  /** Slot `j` holds a tombstone, and no empty slot comes before it in the probe sequence from `home`. */
  ghost predicate TombstoneFirst<K, V>(tr: Traits<K, V>, s: seq<Entry<K, V>>, home: nat, j: int) {
    && 0 <= j < |s| && s[j].key == tr.tombstone && tr.tombstone != tr.empty
    && forall e :: 0 <= e < |s| && s[e].key == tr.empty ==> Distance(home, j, |s|) < Distance(home, e, |s|)
  }

  ghost predicate MeetsTombstone<K, V>(tr: Traits<K, V>, s: seq<Entry<K, V>>, home: nat) {
    exists j :: TombstoneFirst(tr, s, home, j)
  }

  /** Erasing, key by key. */
  lemma ErasedKeyByKey<K(!new), V>(tr: Traits<K, V>, t: Table<K, V>, k: K)
    requires TableInvariant(tr, t)
    ensures var m, n := Contents(tr, t.slots), Contents(tr, Erased(tr, t, k).slots);
      && (forall q :: q in m && tr.equal(q, k) ==> n == m - {q})
      && ((forall q :: q in m ==> !tr.equal(q, k)) ==> n == m)
    ensures Erased(tr, t, k).occupied == t.occupied && |Erased(tr, t, k).slots| == |t.slots|
  {
    ErasedFacts(tr, t, k);
    SlotsAgreeWithMap(tr, t, k);
    var m := Contents(tr, t.slots);
    forall q | q in m && tr.equal(q, k) ensures Stores(tr, m, k) && StoredKey(tr, m, k) == q {
      var p := StoredKey(tr, m, k);
      assert tr.equal(p, q);
    }
  }

  lemma ErasedFacts<K(!new), V>(tr: Traits<K, V>, t: Table<K, V>, k: K)
    requires TableInvariant(tr, t)
    ensures TableInvariant(tr, Erased(tr, t, k))
    ensures Contents(tr, Erased(tr, t, k).slots) == MapErase(tr, Contents(tr, t.slots), k)
    ensures Present(tr, t.slots, k) ==> t.size > 0
    ensures !Present(tr, Erased(tr, t, k).slots, k)
  {
    var s := t.slots;
    SlotsAgreeWithMap(tr, t, k);
    if Present(tr, s, k) {
      var i := HitSlot(tr, s, k);
      NoneLive(tr, s);
      StoreTombstone(tr, s, i);
      CountsAfterUpdate(tr, s, i, Entry(tr.tombstone, tr.blank));
      forall j ensures !Hit(tr, Erased(tr, t, k).slots, k, j) {
        if j != i && Hit(tr, s, k, j) {
          HitSlotIs(tr, s, k, j);
        }
      }
    }
  }

  lemma ClearedFacts<K(!new), V>(tr: Traits<K, V>, t: Table<K, V>)
    requires TableInvariant(tr, t)
    ensures TableInvariant(tr, Cleared(tr, t))
    ensures Contents(tr, Cleared(tr, t).slots) == map[]
    ensures |Cleared(tr, t).slots| == |t.slots| && Cleared(tr, t).size == Cleared(tr, t).occupied == 0
    ensures forall i :: 0 <= i < |t.slots| ==> !Used(tr, Cleared(tr, t).slots[i])
  {
    var s := Cleared(tr, t).slots;
    NoneLive(tr, t.slots);
    NoneLive(tr, s);
    ContentsRepresents(tr, s);
    RepresentsUnique(tr, s, Contents(tr, s), map[]);
  }

  lemma ReleasedFacts<K(!new), V>(tr: Traits<K, V>, t: Table<K, V>)
    requires TableInvariant(tr, t)
    ensures TableInvariant(tr, Released(t)) && Released(t) == Nothing()
    ensures Contents(tr, Released(t).slots) == map[]
  {
  }

  /** The capacity chosen by `Rehash` is the least power of two that is at least max(target, 8) and
      whose load by the live entries stays strictly below 75%. */
  lemma RehashCapacityIsLeast(target: nat, size: nat, p: nat)
    ensures var c := RehashCapacity(target, size);
      IsPowerOfTwo(c) && c >= 8 && c >= target && 3 * c > 4 * size
    ensures IsPowerOfTwo(p) && p >= 8 && p >= target && 3 * p > 4 * size ==> RehashCapacity(target, size) <= p
  {
    if IsPowerOfTwo(p) && p >= 8 && p >= target && 3 * p > 4 * size {
      NextPowerOfTwoIsLeast(target, p);
      LeastFittingIsLeast(FirstCandidate(target), size, p);
    }
  }

  /** An explicit rehash that may go ahead ends in range. */
  lemma RehashCapacityInRange(target: nat, size: nat)
    requires RehashFits(target, size) && size <= FILL_LIMIT
    ensures RehashCapacity(target, size) <= MAX_CAPACITY
  {
    LimitsArePowersOfTwo();
    FirstCandidateInRange(target);
    var last := if FirstCandidate(target) <= INSERT_LIMIT then INSERT_LIMIT else MAX_CAPACITY;
    LeastFittingIsLeast(FirstCandidate(target), size, last);
  }

  /** `Rehash` keeps the represented map, leaves no tombstone, and a second identical call changes nothing. */
  lemma RehashedFacts<K(!new), V>(tr: Traits<K, V>, t: Table<K, V>, target: nat)
    requires TableInvariant(tr, t) && RehashFits(target, t.size)
    ensures var u := Rehashed(tr, t, target);
      && TableInvariant(tr, u)
      && Contents(tr, u.slots) == Contents(tr, t.slots)
      && |u.slots| == (if t.size == 0 && target == 0 then 0 else RehashCapacity(target, t.size))
      && u.size == t.size && u.occupied == u.size
      && (forall i :: 0 <= i < |u.slots| ==> u.slots[i].key != tr.tombstone)
      && Rehashed(tr, u, target) == u
  {
    if t.size == 0 && target == 0 {
      ReleasedFacts(tr, t);
      NoneLive(tr, t.slots);
      ContentsRepresents(tr, t.slots);
    } else {
      var c := RehashCapacity(target, t.size);
      RehashCapacityIsLeast(target, t.size, c);
      RehashCapacityInRange(target, t.size);
      if c != |t.slots| || t.occupied > t.size {
        RebuiltFacts(tr, t, c);
      } else {
        NoTombstones(tr, t.slots);
      }
    }
  }

  lemma {:induction false} NoTombstones<K(!new), V>(tr: Traits<K, V>, s: seq<Entry<K, V>>)
    requires Lawful(tr) && LiveCount(tr, s) == UsedCount(tr, s)
    ensures forall i :: 0 <= i < |s| ==> s[i].key != tr.tombstone
  {
    if s != [] {
      LiveAtMostUsed(tr, s[..|s| - 1]);
      NoTombstones(tr, s[..|s| - 1]);
      assert forall i :: 0 <= i < |s| - 1 ==> s[i] == s[..|s| - 1][i];
    }
  }

  // ----- Filling a table with new keys only -----

  /** A table that has only ever been filled: no tombstones, and no larger than its growth policy needs. */
  ghost predicate Filled<K, V>(t: Table<K, V>) {
    t.occupied == t.size && (|t.slots| <= INITIAL_CAPACITY || 8 * t.size > 3 * |t.slots|)
  }

  lemma FilledCapacity<K(!new), V>(tr: Traits<K, V>, t: Table<K, V>)
    requires TableInvariant(tr, t) && Filled(t) && 4 * t.size <= 3 * INSERT_LIMIT
    ensures |t.slots| <= INSERT_LIMIT
  {
    if t.slots != [] {
      CapacityBands(|t.slots|);
    }
  }

  /** In a table without tombstones a new key takes an empty slot. */
  lemma StoredInFilled<K(!new), V>(tr: Traits<K, V>, u: Table<K, V>, k: K, v: V)
    requires TableInvariant(tr, u) && u.slots != [] && u.occupied == u.size
    requires !Stores(tr, Contents(tr, u.slots), k)
    ensures var w := Stored(tr, u, k, v);
      |w.slots| == |u.slots| && w.size == u.size + 1 && w.occupied == u.occupied + 1
  {
    SlotsAgreeWithMap(tr, u, k);
    NoTombstones(tr, u.slots);
    var e := ProbeEnds(tr, u, k);
  }

  lemma FilledAfterInsert<K(!new), V>(tr: Traits<K, V>, t: Table<K, V>, k: K, v: V)
    requires TableInvariant(tr, t) && Filled(t) && |t.slots| <= INSERT_LIMIT
    requires !Sentinel(tr, k) && !Stores(tr, Contents(tr, t.slots), k)
    ensures Filled(Inserted(tr, t, k, v)) && Inserted(tr, t, k, v).size == t.size + 1
  {
    PreparedFacts(tr, t);
    StoredInFilled(tr, Prepared(tr, t), k, v);
  }

  // ----- What goes wrong at 2^31 slots -----

  /** Filling with `FILL_LIMIT` new keys brings the table to 2^31 slots, three eighths of them live; one more
      insert, of any key, would rebuild it at capacity 0. */
  lemma FilledTooFar<K(!new), V>(tr: Traits<K, V>, t: Table<K, V>)
    requires TableInvariant(tr, t) && Filled(t) && t.size == FILL_LIMIT
    ensures |t.slots| == MAX_CAPACITY
    ensures Decide(|t.slots|, t.size, t.occupied) == RebuildAt(0)
    ensures !Fits(|t.slots|, t.size, t.occupied)
  {
    GrowthWrapsAtMaximum();
    CapacityBands(|t.slots|);
  }

  /** Updating a present key of a 2^31-slot table between a quarter and three eighths live scans every slot and
      leaves another such table: the next update scans them all again. */
  lemma UpdateRescans<K(!new), V>(tr: Traits<K, V>, t: Table<K, V>, k: K, v: V)
    requires TableInvariant(tr, t) && |t.slots| == MAX_CAPACITY && EXACT_LIMIT <= t.size < 3 * (EXACT_LIMIT / 2)
    requires Stores(tr, Contents(tr, t.slots), k) && !Sentinel(tr, k)
    ensures Fits(|t.slots|, t.size, t.occupied)
    ensures ScanCost(|t.slots|, t.size, t.occupied) == MAX_CAPACITY
    ensures var u := Inserted(tr, t, k, v);
      && TableInvariant(tr, u) && |u.slots| == MAX_CAPACITY && u.size == u.occupied == t.size
      && Stores(tr, Contents(tr, u.slots), k)
  {
    assert Decide(MAX_CAPACITY, t.size, t.occupied) == RebuildAt(MAX_CAPACITY);
    PreparedFacts(tr, t);
    InsertedFacts(tr, t, k, v);
    RebuiltFacts(tr, t, MAX_CAPACITY);
    var p := Prepared(tr, t);
    SlotsAgreeWithMap(tr, p, k);
    var q := StoredKey(tr, Contents(tr, t.slots), k);
    assert q in Contents(tr, Inserted(tr, t, k, v).slots);
  }

  /** A table without tombstones that is less than 75% live takes a new key at its present capacity, and without
      scanning a slot unless it is a 2^31-slot table at least a quarter live. */
  lemma FillsInPlace<K(!new), V>(tr: Traits<K, V>, t: Table<K, V>, k: K, v: V)
    requires TableInvariant(tr, t) && t.size == t.occupied
    requires 4 * t.occupied < 3 * |t.slots| && t.occupied + 1 < FILL_LIMIT
    requires !Stores(tr, Contents(tr, t.slots), k) && !Sentinel(tr, k)
    ensures Fits(|t.slots|, t.size, t.occupied)
    ensures |t.slots| <= INSERT_LIMIT || t.size < EXACT_LIMIT ==> ScanCost(|t.slots|, t.size, t.occupied) == 0
    ensures var u := Inserted(tr, t, k, v);
      TableInvariant(tr, u) && |u.slots| == |t.slots| && u.size == u.occupied == t.size + 1
  {
    CapacityBands(|t.slots|);
    InPlaceDecision(|t.slots|, t.occupied);
    PreparedFacts(tr, t);
    InsertedFacts(tr, t, k, v);
    StoredInFilled(tr, Prepared(tr, t), k, v);
  }

  lemma InPlaceDecision(capacity: nat, occupied: nat)
    requires capacity <= EXACT_LIMIT || capacity == INSERT_LIMIT || capacity == MAX_CAPACITY
    requires 4 * occupied < 3 * capacity && occupied + 1 < FILL_LIMIT
    ensures Decide(capacity, occupied, occupied) == Keep || Decide(capacity, occupied, occupied) == RebuildAt(capacity)
    ensures capacity <= INSERT_LIMIT || occupied < EXACT_LIMIT ==> Decide(capacity, occupied, occupied) == Keep
    ensures Fits(capacity, occupied, occupied)
  {
  }
}
