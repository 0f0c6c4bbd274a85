/** The map as the program has it: one heap array of entries and three counters, changed in place. */
module HashMap {
  import opened Wrappers

  import opened HashIndex
  import opened LoadPolicy
  import opened PowerRounding
  import opened ProbeTable
  import opened TableSteps
  import opened Words

  /** What `Insert` gives back: the slot whose value it stored, or nothing when it aborts on a sentinel. */
  datatype InsertResult = Aborted | At(slot: nat)

  /** `static_cast<int32_t>` */
  function ToInt32(x: nat): int
    requires x < TWO_32
  {
    if x < 0x8000_0000 then x else x - TWO_32
  }

  // ----- Facts the probe loops use -----

  /** The probe for `k` has come to `idx` without meeting it, and the empty slot `e` still lies ahead. */
  ghost predicate Missed<K, V>(tr: Traits<K, V>, s: seq<Entry<K, V>>, k: K, idx: int, e: int)
    requires IsPowerOfTwo(|s|)
  {
    var home := Home(tr, k, |s|);
    && 0 <= idx < |s| && 0 <= e < |s| && !Used(tr, s[e])
    && Distance(home, idx, |s|) <= Distance(home, e, |s|)
    && forall j :: 0 <= j < |s| && Distance(home, j, |s|) < Distance(home, idx, |s|) ==>
      Used(tr, s[j]) && !Hit(tr, s, k, j)
  }

  lemma MissedAtHome<K(!new), V>(tr: Traits<K, V>, s: seq<Entry<K, V>>, k: K, e: nat)
    requires IsPowerOfTwo(|s|) && e < |s| && !Used(tr, s[e])
    ensures Missed(tr, s, k, Home(tr, k, |s|), e)
  {
  }

  /** A probe that has met neither the key nor an empty slot so far has not gone round the table. */
  lemma ProbeAdvances(home: nat, idx: nat, e: nat, capacity: nat)
    requires IsPowerOfTwo(capacity) && capacity <= MAX_CAPACITY
    requires home < capacity && idx < capacity && e < capacity && e != idx
    requires Distance(home, idx, capacity) <= Distance(home, e, capacity)
    ensures NextSlot(idx, capacity) < capacity
    ensures Distance(home, NextSlot(idx, capacity), capacity) == Distance(home, idx, capacity) + 1
    ensures forall j :: 0 <= j < capacity && Distance(home, j, capacity) <= Distance(home, idx, capacity) ==>
      j == idx || Distance(home, j, capacity) < Distance(home, idx, capacity)
    ensures Distance(home, idx, capacity) < Distance(home, e, capacity)
  {
    NextSlotIsCyclic(idx, capacity);
  }

  lemma MissedAdvances<K(!new), V>(tr: Traits<K, V>, s: seq<Entry<K, V>>, k: K, idx: nat, e: nat)
    requires IsPowerOfTwo(|s|) && |s| <= MAX_CAPACITY
    requires Missed(tr, s, k, idx, e) && Used(tr, s[idx]) && !Hit(tr, s, k, idx)
    ensures Missed(tr, s, k, NextSlot(idx, |s|), e)
    ensures Remaining(tr, s, k, NextSlot(idx, |s|)) == Remaining(tr, s, k, idx) - 1
  {
    ProbeAdvances(Home(tr, k, |s|), idx, e, |s|);
  }

  /** Slots the probe for `k` has not looked at yet when it stands at `idx`. */
  ghost function Remaining<K, V>(tr: Traits<K, V>, s: seq<Entry<K, V>>, k: K, idx: int): (n: nat)
    requires IsPowerOfTwo(|s|) && 0 <= idx < |s|
    ensures n > 0
  {
    |s| - Distance(Home(tr, k, |s|), idx, |s|)
  }

  lemma MissedMeansAbsent<K(!new), V>(tr: Traits<K, V>, s: seq<Entry<K, V>>, k: K, idx: nat, e: nat)
    requires WellFormed(tr, s)
    requires Missed(tr, s, k, idx, e) && !Used(tr, s[idx])
    ensures !Present(tr, s, k)
  {
    hide Chained, Distinct, Home;
    forall i ensures !Hit(tr, s, k, i) {
      if Hit(tr, s, k, i) {
        HitComesBeforeEmpty(tr, s, k, i, idx);
      }
    }
  }

  lemma StoredAtHit<K(!new), V>(tr: Traits<K, V>, t: Table<K, V>, k: K, v: V, i: nat)
    requires TableInvariant(tr, t) && t.slots != [] && Hit(tr, t.slots, k, i)
    ensures Stored(tr, t, k, v) == Table(t.slots[i := Entry(t.slots[i].key, v)], t.size, t.occupied)
    ensures Hit(tr, Stored(tr, t, k, v).slots, k, i)
  {
    HitSlotIs(tr, t.slots, k, i);
  }

  lemma StoredAtFree<K(!new), V>(tr: Traits<K, V>, t: Table<K, V>, k: K, v: V, idx: nat, e: nat, firstTombstone: int)
    requires TableInvariant(tr, t) && t.slots != [] && !Sentinel(tr, k)
    requires Missed(tr, t.slots, k, idx, e) && !Used(tr, t.slots[idx])
    requires Remembers(tr, t.slots, k, idx, firstTombstone)
    ensures var w := if firstTombstone >= 0 then firstTombstone else idx;
      && w < |t.slots|
      && Stored(tr, t, k, v) == Table(t.slots[w := Entry(k, v)], t.size + 1,
        t.occupied + if firstTombstone >= 0 then 0 else 1)
      && Hit(tr, Stored(tr, t, k, v).slots, k, w)
  {
    MissedMeansAbsent(tr, t.slots, k, idx, e);
    RememberedIsFirstFree(tr, t.slots, k, idx, firstTombstone);
  }

  lemma ErasedAtMiss<K(!new), V>(tr: Traits<K, V>, t: Table<K, V>, k: K)
    requires !Present(tr, t.slots, k)
    ensures Erased(tr, t, k) == t
  {
  }

  lemma ErasedAtHit<K(!new), V>(tr: Traits<K, V>, t: Table<K, V>, k: K, i: nat)
    requires TableInvariant(tr, t) && t.slots != [] && Hit(tr, t.slots, k, i)
    ensures t.size > 0 && Present(tr, t.slots, k)
    ensures Erased(tr, t, k) == Table(t.slots[i := Entry(tr.tombstone, tr.blank)], t.size - 1, t.occupied)
  {
    HitSlotIs(tr, t.slots, k, i);
    NoneLive(tr, t.slots);
  }

  /** The bookkeeping of `firstTombstone`: it is the first free slot once a tombstone has been met. */
  ghost predicate Remembers<K, V>(tr: Traits<K, V>, s: seq<Entry<K, V>>, k: K, idx: nat, firstTombstone: int)
    requires IsPowerOfTwo(|s|)
  {
    var home := Home(tr, k, |s|);
    if firstTombstone < 0 then
      forall j :: 0 <= j < |s| && Distance(home, j, |s|) < Distance(home, idx, |s|) ==> Live(tr, s[j])
    else
      IsFirstFree(tr, s, home, firstTombstone) && Used(tr, s[firstTombstone])
  }

  lemma RemembersAdvances<K(!new), V>(tr: Traits<K, V>, s: seq<Entry<K, V>>, k: K, idx: nat, e: nat, before: int,
                                      after: int)
    requires IsPowerOfTwo(|s|) && |s| <= MAX_CAPACITY
    requires Missed(tr, s, k, idx, e) && Used(tr, s[idx])
    requires Remembers(tr, s, k, idx, before)
    requires after == if before < 0 && !Live(tr, s[idx]) then idx else before
    ensures Remembers(tr, s, k, NextSlot(idx, |s|), after)
  {
    ProbeAdvances(Home(tr, k, |s|), idx, e, |s|);
  }

  /** At the empty slot that ends the probe, the remembered slot is where a new key belongs. */
  lemma RememberedIsFirstFree<K(!new), V>(tr: Traits<K, V>, s: seq<Entry<K, V>>, k: K, idx: nat, firstTombstone: int)
    requires IsPowerOfTwo(|s|) && idx < |s| && !Used(tr, s[idx])
    requires Remembers(tr, s, k, idx, firstTombstone)
    ensures var w := if firstTombstone >= 0 then firstTombstone else idx;
      && w == FirstFree(tr, s, Home(tr, k, |s|)) && w < |s|
      && (Used(tr, s[w]) <==> firstTombstone >= 0)
  {
    if firstTombstone >= 0 {
      FirstFreeIs(tr, s, Home(tr, k, |s|), firstTombstone);
    } else {
      FirstFreeIs(tr, s, Home(tr, k, |s|), idx);
    }
  }

  class OpenHashMap<K(==, !new), V> {
    const traits: Traits<K, V>
    var entries: array?<Entry<K, V>>
    var capacity: nat
    var size: nat
    var occupied: nat

    ghost function Footprint(): set<object>
      reads this
    {
      {this} + if entries == null then {} else {entries}
    }

    ghost function State(): Table<K, V>
      reads this, entries
    {
      Table(if entries == null then [] else entries[..], size, occupied)
    }

    ghost predicate Valid()
      reads this, entries
    {
      && capacity == |State().slots|
      && (entries != null ==> entries.Length > 0)
      && TableInvariant(traits, State())
    }

    /** The finite map this object represents. */
    ghost function Contents(): map<K, V>
      reads this, entries
    {
      ProbeTable.Contents(traits, State().slots)
    }

    constructor (tr: Traits<K, V>)
      requires Lawful(tr)
      ensures Valid() && State() == Nothing() && traits == tr && fresh(Footprint())
    {
      traits := tr;
      entries := null;
      capacity, size, occupied := 0, 0, 0;
    }

    /** The slot of the live key equal to `key`, or none if no slot of the whole table holds one. `probes` counts
        the slots looked at. */
    method Find(key: K) returns (slot: Option<nat>, ghost probes: nat)
      requires Valid()
      ensures probes <= capacity
      ensures slot.None? <==> !Present(traits, State().slots, key)
      ensures slot.Some? ==> Hit(traits, State().slots, key, slot.value)
      ensures (if slot.Some? then Some(State().slots[slot.value].value) else None) == MapFind(traits, Contents(), key)
    {
      SlotsAgreeWithMap(traits, State(), key);
      probes := 0;
      if capacity == 0 {
        return None, probes;
      }
      ghost var s := entries[..];
      ghost var e := ProbeEnds(traits, State(), key);
      var idx: nat := Home(traits, key, capacity);
      MissedAtHome(traits, s, key, e);
      while true
        invariant Missed(traits, s, key, idx, e)
        invariant probes + Remaining(traits, s, key, idx) == capacity
        decreases Remaining(traits, s, key, idx)
      {
        var k := entries[idx].key;
        probes := probes + 1;
        if k == traits.empty {
          MissedMeansAbsent(traits, s, key, idx, e);
          return None, probes;
        }
        if k != traits.tombstone && traits.equal(k, key) {
          HitSlotIs(traits, s, key, idx);
          return Some(idx), probes;
        }
        MissedAdvances(traits, s, key, idx, e);
        idx := NextSlot(idx, capacity);
      }
    }

    method RehashTo(newCapacity: nat)
      requires Valid()
      requires IsPowerOfTwo(newCapacity) && INITIAL_CAPACITY <= newCapacity <= MAX_CAPACITY
      requires 4 * size < 3 * newCapacity
      modifies this
      ensures Valid() && State() == Rebuilt(traits, old(State()), newCapacity)
      ensures fresh(entries)
    {
      RebuiltFacts(traits, State(), newCapacity);
      var newEntries := Reinsert(newCapacity);
      entries := newEntries;
      capacity := newCapacity;
      occupied := size;
    }

    /** The zeroed new table with every live entry reinserted, old slot by old slot. */
    method Reinsert(newCapacity: nat) returns (newEntries: array<Entry<K, V>>)
      requires Valid()
      requires IsPowerOfTwo(newCapacity) && INITIAL_CAPACITY <= newCapacity <= MAX_CAPACITY
      requires 4 * size < 3 * newCapacity
      ensures fresh(newEntries)
      ensures newEntries[..] == Refill(traits, State().slots, capacity, newCapacity)
    {
      hide Home, WellFormed, LiveCount, UsedCount;
      newEntries := new Entry<K, V>[newCapacity](_ => Entry(traits.empty, traits.zero));
      ghost var s := State().slots;
      assert newEntries[..] == Zeroed(traits, newCapacity);
      var i: nat := 0;
      while i < capacity
        invariant i <= capacity
        invariant newEntries[..] == Refill(traits, s, i, newCapacity)
        modifies newEntries
      {
        var k := entries[i].key;
        if k != traits.empty && k != traits.tombstone {
          assert Live(traits, s[i]);
          RoomToReinsert(traits, State(), i, newCapacity);
          var idx, _ := Reprobe(newEntries, k);
          newEntries[idx] := Entry(k, entries[i].value);
          assert newEntries[..] == Place(traits, Refill(traits, s, i, newCapacity), s[i]);
        }
        i := i + 1;
      }
    }

    /** The inner loop of a rebuild: the first empty slot from the key's home, found without comparing keys. */
    method Reprobe(table: array<Entry<K, V>>, k: K) returns (idx: nat, ghost probes: nat)
      requires IsPowerOfTwo(table.Length) && table.Length <= MAX_CAPACITY
      requires UsedCount(traits, table[..]) < table.Length
      requires forall j :: 0 <= j < table.Length ==> table[j].key != traits.tombstone
      ensures idx < table.Length && idx == FirstFree(traits, table[..], Home(traits, k, table.Length))
      ensures probes <= table.Length
    {
      ghost var s := table[..];
      ghost var e := EmptySlotExists(traits, s);
      ghost var home := Home(traits, k, table.Length);
      idx, probes := Home(traits, k, table.Length), 1;
      while table[idx].key != traits.empty
        invariant idx < table.Length && Distance(home, idx, |s|) <= Distance(home, e, |s|)
        invariant forall j :: 0 <= j < |s| && Distance(home, j, |s|) < Distance(home, idx, |s|) ==> Live(traits, s[j])
        invariant probes == Distance(home, idx, |s|) + 1
        decreases Distance(home, e, |s|) - Distance(home, idx, |s|)
      {
        ProbeAdvances(home, idx, e, |s|);
        idx, probes := NextSlot(idx, table.Length), probes + 1;
      }
      FirstFreeIs(traits, s, home, idx);
    }

    method Grow()
      requires Valid()
      requires var c := GrownCapacity(capacity);
        IsPowerOfTwo(c) && INITIAL_CAPACITY <= c <= MAX_CAPACITY && 4 * size < 3 * c
      modifies this
      ensures Valid() && State() == Rebuilt(traits, old(State()), GrownCapacity(old(capacity)))
      ensures fresh(entries)
    {
      RehashTo(if capacity == 0 then INITIAL_CAPACITY else Wrap(capacity * 2));
    }

    method EnsureCapacityForInsert()
      requires Valid() && Fits(capacity, size, occupied)
      modifies this
      ensures Valid() && State() == Prepared(traits, old(State()))
      ensures entries == old(entries) || fresh(entries)
    {
      DecisionFacts(capacity, size, occupied);
      if capacity == 0 {
        Grow();
        return;
      }
      if Wrap(occupied * 4) >= Wrap(capacity * 3) {
        if Wrap(size * 8) >= Wrap(capacity * 5) {
          Grow();
        } else {
          RehashTo(capacity);
        }
      }
    }

    /** Insert or update. The new state is the one of `Inserted`: preparation first, and a sentinel key
        aborts only afterwards. */
    method Insert(key: K, value: V) returns (r: InsertResult)
      requires Valid() && Fits(capacity, size, occupied)
      modifies this, entries
      ensures Valid() && State() == Inserted(traits, old(State()), key, value)
      ensures Contents() == MapInsert(traits, old(Contents()), key, value)
      ensures key == traits.empty || key == traits.tombstone ==> Contents() == old(Contents())
      ensures key != traits.empty && key != traits.tombstone ==>
        && (forall q :: q in old(Contents()) && traits.equal(q, key) ==> Contents() == old(Contents())[q := value])
        && ((forall q :: q in old(Contents()) ==> !traits.equal(q, key)) ==>
              Contents() == old(Contents())[key := value])
      ensures old(capacity) == 0 ==> capacity == 8
      ensures r.Aborted? <==> key == traits.empty || key == traits.tombstone
      ensures r.At? ==> Hit(traits, State().slots, key, r.slot) && State().slots[r.slot].value == value
      ensures entries == old(entries) || fresh(entries)
    {
      InsertedFacts(traits, State(), key, value);
      InsertedKeyByKey(traits, State(), key, value);
      PreparedFacts(traits, State());
      EnsureCapacityForInsert();
      if key == traits.empty {
        return Aborted;
      }
      if key == traits.tombstone {
        return Aborted;
      }
      var slot := Store(key, value);
      r := At(slot);
    }

    /** The probe loop of `Insert`: it stops at the key or at the first empty slot, remembering the first tombstone. */
    method ProbeForInsert(key: K) returns (idx: nat, firstTombstone: int, ghost e: nat, ghost probes: nat)
      requires Valid() && capacity > 0
      ensures probes <= capacity
      ensures Missed(traits, State().slots, key, idx, e) && Remembers(traits, State().slots, key, idx, firstTombstone)
      ensures !Used(traits, State().slots[idx]) || Hit(traits, State().slots, key, idx)
    {
      ghost var s := entries[..];
      e := ProbeEnds(traits, State(), key);
      idx := Home(traits, key, capacity);
      firstTombstone, probes := -1, 0;
      MissedAtHome(traits, s, key, e);
      while true
        invariant Missed(traits, s, key, idx, e)
        invariant probes + Remaining(traits, s, key, idx) == capacity
        invariant Remembers(traits, s, key, idx, firstTombstone)
        decreases Remaining(traits, s, key, idx)
      {
        var k := entries[idx].key;
        probes := probes + 1;
        if k == traits.empty {
          return;
        }
        ghost var before := firstTombstone;
        if k == traits.tombstone {
          if firstTombstone < 0 {
            firstTombstone := ToInt32(idx);
          }
        } else if traits.equal(k, key) {
          return;
        }
        MissedAdvances(traits, s, key, idx, e);
        RemembersAdvances(traits, s, key, idx, e, before, firstTombstone);
        idx := NextSlot(idx, capacity);
      }
    }

    /** Storing a key once the table is prepared and the key is known not to be a sentinel. */
    method Store(key: K, value: V) returns (slot: nat)
      requires Valid() && capacity > 0 && Roomy(capacity, occupied) && !Sentinel(traits, key)
      modifies this, entries
      ensures Valid() && State() == Stored(traits, old(State()), key, value)
      ensures Hit(traits, State().slots, key, slot) && State().slots[slot].value == value
      ensures entries == old(entries)
    {
      hide Stored, Home, Remembers, Missed, Present;
      ghost var t, s := State(), entries[..];
      ghost var goal := Stored(traits, t, key, value);
      StoredFacts(traits, t, key, value);
      var idx, firstTombstone, e, _ := ProbeForInsert(key);
      if entries[idx].key == traits.empty {
        StoredAtFree(traits, t, key, value, idx, e, firstTombstone);
        if firstTombstone >= 0 {
          slot := firstTombstone;
        } else {
          slot := idx;
          occupied := occupied + 1;
        }
        entries[slot] := Entry(key, value);
        size := size + 1;
        assert entries[..] == s[slot := Entry(key, value)];
      } else {
        StoredAtHit(traits, t, key, value, idx);
        slot := idx;
        entries[slot] := Entry(entries[slot].key, value);
        assert entries[..] == s[slot := Entry(s[slot].key, value)];
      }
      assert State() == goal;
    }

    method Erase(key: K) returns (erased: bool, ghost probes: nat)
      requires Valid()
      modifies this, entries
      ensures probes <= capacity == old(capacity)
      ensures Valid() && State() == Erased(traits, old(State()), key)
      ensures Contents() == MapErase(traits, old(Contents()), key)
      ensures forall q :: q in old(Contents()) && traits.equal(q, key) ==> Contents() == old(Contents()) - {q}
      ensures (forall q :: q in old(Contents()) ==> !traits.equal(q, key)) ==> Contents() == old(Contents())
      ensures occupied == old(occupied)
      ensures erased <==> old(Present(traits, State().slots, key))
      ensures entries == old(entries)
    {
      hide Erased, Home, LiveCount, UsedCount, ProbeTable.Contents, Chained, Distinct, Lawful;
      ghost var t := State();
      ghost var goal := Erased(traits, t, key);
      ErasedFacts(traits, t, key);
      ErasedKeyByKey(traits, t, key);
      probes := 0;
      if capacity == 0 {
        ErasedAtMiss(traits, t, key);
        return false, probes;
      }
      ghost var s := entries[..];
      ghost var e := ProbeEnds(traits, t, key);
      var idx: nat := Home(traits, key, capacity);
      MissedAtHome(traits, s, key, e);
      while true
        invariant Missed(traits, s, key, idx, e)
        invariant probes + Remaining(traits, s, key, idx) == capacity
        decreases Remaining(traits, s, key, idx)
        modifies {}
      {
        var k := entries[idx].key;
        probes := probes + 1;
        if k == traits.empty {
          MissedMeansAbsent(traits, s, key, idx, e);
          ErasedAtMiss(traits, t, key);
          return false, probes;
        }
        if k != traits.tombstone && traits.equal(k, key) {
          break;
        }
        MissedAdvances(traits, s, key, idx, e);
        idx := NextSlot(idx, capacity);
      }
      ErasedAtHit(traits, t, key, idx);
      entries[idx] := Entry(traits.tombstone, traits.blank);
      size := size - 1;
      assert entries[..] == s[idx := Entry(traits.tombstone, traits.blank)];
      assert State() == goal;
      return true, probes;
    }

    method Clear()
      requires Valid()
      modifies this, entries
      ensures Valid() && State() == Cleared(traits, old(State())) && Contents() == map[]
      ensures size == occupied == 0 && capacity == old(capacity)
      ensures entries == old(entries)
    {
      ClearedFacts(traits, State());
      if entries != null && occupied > 0 {
        forall i | 0 <= i < entries.Length {
          entries[i] := Entry(traits.empty, traits.zero);
        }
        assert entries[..] == Zeroed(traits, capacity);
      }
      size := 0;
      occupied := 0;
    }

    method Release()
      requires Valid()
      modifies this
      ensures Valid() && State() == Released(old(State())) == Nothing() && Contents() == map[]
      ensures size == occupied == capacity == 0
      ensures entries == null
    {
      ReleasedFacts(traits, State());
      if entries != null {
        entries := null;
        capacity := 0;
        size := 0;
        occupied := 0;
      }
    }

    method Rehash(targetCapacity: nat)
      requires Valid()
      requires RehashFits(targetCapacity, size)
      modifies this
      ensures Valid() && State() == Rehashed(traits, old(State()), targetCapacity)
      ensures Contents() == old(Contents()) && capacity >= targetCapacity
      ensures entries == old(entries) || entries == null || fresh(entries)
    {
      RehashedFacts(traits, State(), targetCapacity);
      if size == 0 && targetCapacity == 0 {
        Release();
        return;
      }
      var minCapacity := ChooseCapacity(targetCapacity);
      if minCapacity != capacity {
        RehashTo(minCapacity);
      } else if occupied > size {
        RehashTo(capacity);
      }
    }

    /** The doubling loop of `Rehash`, in 32-bit arithmetic. */
    method ChooseCapacity(targetCapacity: nat) returns (minCapacity: nat)
      requires RehashFits(targetCapacity, size) && size <= FILL_LIMIT
      ensures minCapacity == RehashCapacity(targetCapacity, size) <= MAX_CAPACITY
      ensures IsPowerOfTwo(minCapacity) && INITIAL_CAPACITY <= minCapacity && 4 * size < 3 * minCapacity
      ensures targetCapacity <= minCapacity
    {
      RehashCapacityInRange(targetCapacity, size);
      FirstCandidateInRange(targetCapacity);
      var first := RoundUp(targetCapacity);
      minCapacity := if first > INITIAL_CAPACITY then first else INITIAL_CAPACITY;
      while Wrap(minCapacity * 3) <= Wrap(size * 4)
        invariant IsPowerOfTwo(minCapacity) && FirstCandidate(targetCapacity) <= minCapacity <= MAX_CAPACITY
        invariant minCapacity == FirstCandidate(targetCapacity) || minCapacity <= INSERT_LIMIT
        invariant LeastFitting(minCapacity, size) == RehashCapacity(targetCapacity, size)
        decreases MAX_CAPACITY - minCapacity
      {
        WrappedGuard(targetCapacity, minCapacity, size);
        minCapacity := Wrap(minCapacity * 2);
      }
      WrappedGuard(targetCapacity, minCapacity, size);
    }

    /** The live entries in slot order: what the functor is called with. */
    method ForEach() returns (visited: seq<Entry<K, V>>)
      requires Valid()
      ensures visited == LiveEntries(traits, State().slots)
    {
      hide WellFormed, Balanced;
      visited := [];
      var i: nat := 0;
      while i < capacity
        invariant i <= capacity
        invariant visited == LiveEntries(traits, State().slots[..i])
      {
        var k := entries[i].key;
        assert State().slots[..i + 1][..i] == State().slots[..i];
        if k != traits.empty && k != traits.tombstone {
          visited := visited + [entries[i]];
        }
        i := i + 1;
      }
      assert State().slots[..capacity] == State().slots;
    }

    /** `*pointer = value` through the pointer Find or Insert gave back, while no rebuild has come in between:
        the value of that one key changes. */
    method SetAt(slot: nat, value: V)
      requires Valid() && slot < capacity && Live(traits, State().slots[slot])
      modifies entries
      ensures Valid() && size == old(size) && occupied == old(occupied)
      ensures State() == old(State().(slots := State().slots[slot := Entry(State().slots[slot].key, value)]))
      ensures old(State().slots[slot].key in Contents())
      ensures Contents() == old(Contents())[old(State().slots[slot].key) := value]
    {
      ghost var t := State();
      StoreValue(traits, t.slots, value, slot);
      CountsAfterUpdate(traits, t.slots, slot, Entry(t.slots[slot].key, value));
      entries[slot] := Entry(entries[slot].key, value);
      assert entries[..] == t.slots[slot := Entry(t.slots[slot].key, value)];
    }

    /** ForEach with a functor that may change values and carries a state of its own. */
    method ForEachUpdate<S>(functor: (S, K, V) -> (S, V), start: S) returns (end: S)
      requires Valid()
      modifies entries
      ensures Valid() && size == old(size) && occupied == old(occupied)
      ensures Contents().Keys == old(Contents().Keys)
      ensures (end, LiveEntries(traits, State().slots))
           == Folded(functor, start, old(LiveEntries(traits, State().slots)))
    {
      hide TableInvariant, LiveEntries, Folded, Swept;
      ghost var t := State();
      SweptKeeps(traits, functor, start, t);
      SweptIsFolded(traits, functor, start, t.slots);
      end := Sweep(functor, start);
      assert State() == t.(slots := Swept(traits, functor, start, t.slots).1);
    }

    /** The loop of ForEach. */
    method Sweep<S>(functor: (S, K, V) -> (S, V), start: S) returns (end: S)
      requires capacity == |State().slots|
      modifies entries
      ensures (end, State().slots) == Swept(traits, functor, start, old(State().slots))
    {
      hide Swept;
      ghost var s := State().slots;
      SweptNothing(traits, functor, start);
      end := start;
      var i: nat := 0;
      while i < capacity
        invariant i <= capacity == |s| == |State().slots|
        invariant State().slots[i..] == s[i..]
        invariant (end, State().slots[..i]) == Swept(traits, functor, start, s[..i])
        modifies entries
      {
        SweptNext(traits, functor, start, s, i);
        var k := entries[i].key;
        assert entries[i] == s[i..][0];
        ghost var done := entries[..i];
        if k != traits.empty && k != traits.tombstone {
          var (next, v) := functor(end, k, entries[i].value);
          end := next;
          entries[i] := Entry(k, v);
        }
        assert Live(traits, s[i]) <==> k != traits.empty && k != traits.tombstone;
        assert entries[..i + 1] == done + [entries[i]];
        assert entries[i + 1..] == s[i + 1..];
        i := i + 1;
      }
      assert s[..capacity] == s && State().slots[..capacity] == State().slots;
    }

    method Size() returns (n: nat)
      requires Valid()
      ensures n == |Contents()|
    {
      ContentsRepresents(traits, State().slots);
      n := size;
    }

    /** Move construction: the table changes hands, the source is left empty. */
    constructor Move(rhs: OpenHashMap<K, V>)
      requires rhs.Valid()
      modifies rhs
      ensures Valid() && State() == old(rhs.State()) && traits == rhs.traits && entries == old(rhs.entries)
      ensures Contents() == old(rhs.Contents())
      ensures rhs.Valid() && rhs.State() == Nothing() && rhs.Contents() == map[]
    {
      traits := rhs.traits;
      entries := rhs.entries;
      capacity := rhs.capacity;
      size := rhs.size;
      occupied := rhs.occupied;
      new;
      rhs.entries := null;
      rhs.capacity := 0;
      rhs.size := 0;
      rhs.occupied := 0;
    }

    /** Move assignment; assigning a map to itself changes nothing. */
    method MoveAssign(rhs: OpenHashMap<K, V>)
      requires Valid() && rhs.Valid() && traits == rhs.traits
      modifies this, rhs
      ensures Valid() && State() == old(rhs.State()) && entries == old(rhs.entries)
      ensures Contents() == old(rhs.Contents())
      ensures rhs.Valid()
      ensures rhs != this ==> rhs.State() == Nothing() && rhs.entries == null && rhs.Contents() == map[]
    {
      if this != rhs {
        entries := rhs.entries;
        capacity := rhs.capacity;
        size := rhs.size;
        occupied := rhs.occupied;
        rhs.entries := null;
        rhs.capacity := 0;
        rhs.size := 0;
        rhs.occupied := 0;
      }
    }
  }

  /** A rebuild has room for every entry that is still to be moved. */
  lemma RoomToReinsert<K(!new), V>(tr: Traits<K, V>, t: Table<K, V>, i: nat, capacity: nat)
    requires TableInvariant(tr, t) && i < |t.slots| && Live(tr, t.slots[i])
    requires IsPowerOfTwo(capacity) && 4 * t.size < 3 * capacity
    ensures var p := Refill(tr, t.slots, i, capacity);
      UsedCount(tr, p) < capacity && forall j :: 0 <= j < capacity ==> p[j].key != tr.tombstone
  {
    LivePrefix(tr, t.slots, i);
    RefillFacts(tr, t.slots, i, capacity);
  }

  lemma {:induction false} LivePrefix<K(!new), V>(tr: Traits<K, V>, s: seq<Entry<K, V>>, i: nat)
    requires i < |s| && Live(tr, s[i])
    ensures LiveCount(tr, s[..i]) < LiveCount(tr, s)
  {
    var n := |s| - 1;
    if i < n {
      LivePrefix(tr, s[..n], i);
      assert s[..n][..i] == s[..i];
    }
  }

  /** On a run that stops, the 32-bit loop guard of `Rehash` is the comparison it stands for. */
  lemma WrappedGuard(target: nat, capacity: nat, size: nat)
    requires RehashFits(target, size) && size <= FILL_LIMIT
    requires IsPowerOfTwo(capacity) && FirstCandidate(target) <= capacity <= MAX_CAPACITY
    requires capacity == FirstCandidate(target) || capacity <= INSERT_LIMIT
    ensures TooSmall(capacity, size) <==> 3 * capacity <= 4 * size
    ensures TooSmall(capacity, size) ==> 2 * capacity <= INSERT_LIMIT && IsPowerOfTwo(2 * capacity)
  {
    CandidateBand(capacity);
    WrappedTriple(FirstCandidate(target), capacity, size);
    Doubling(capacity);
  }

  lemma WrappedTriple(first: nat, capacity: nat, size: nat)
    requires capacity == first || capacity <= INSERT_LIMIT
    requires size <= FILL_LIMIT
    requires first <= capacity
    requires capacity <= INSERT_LIMIT || capacity == MAX_CAPACITY
    requires Wrap(size * 4) < if first <= INSERT_LIMIT then 3 * INSERT_LIMIT else MAX_CAPACITY
    ensures TooSmall(capacity, size) <==> 3 * capacity <= 4 * size
    ensures TooSmall(capacity, size) ==> capacity < INSERT_LIMIT
  {
  }

  lemma CandidateBand(c: nat)
    requires IsPowerOfTwo(c) && INITIAL_CAPACITY <= c <= MAX_CAPACITY
    ensures c < INSERT_LIMIT ==> 2 * c <= INSERT_LIMIT
    ensures c <= INSERT_LIMIT || c == MAX_CAPACITY
  {
    CapacityBands(c);
  }

  // ----- What ForEach visits -----

  function LiveEntries<K(==), V>(tr: Traits<K, V>, s: seq<Entry<K, V>>): seq<Entry<K, V>> {
    if s == [] then []
    else LiveEntries(tr, s[..|s| - 1]) + if Live(tr, s[|s| - 1]) then [s[|s| - 1]] else []
  }

  /** Every live entry is visited, nothing else is, and no key twice; so there are as many visits as live entries. */
  lemma {:induction false} ForEachVisitsOnce<K(!new), V>(tr: Traits<K, V>, s: seq<Entry<K, V>>)
    requires Lawful(tr) && Distinct(tr, s)
    ensures |LiveEntries(tr, s)| == LiveCount(tr, s)
    ensures forall i :: 0 <= i < |s| && Live(tr, s[i]) ==> s[i] in LiveEntries(tr, s)
    ensures forall e :: e in LiveEntries(tr, s) ==> Live(tr, e) && e in s
    ensures forall a, b :: 0 <= a < b < |LiveEntries(tr, s)| ==> LiveEntries(tr, s)[a].key != LiveEntries(tr, s)[b].key
  {
    if s != [] {
      var n := |s| - 1;
      var p := s[..n];
      assert forall i :: 0 <= i < n ==> p[i] == s[i];
      forall j, i | 0 <= j < n && Live(tr, p[j]) && Hit(tr, p, p[j].key, i) ensures i == j {
        assert Hit(tr, s, s[j].key, i);
      }
      ForEachVisitsOnce(tr, p);
      if Live(tr, s[n]) {
        forall a | 0 <= a < |LiveEntries(tr, p)| ensures LiveEntries(tr, p)[a].key != s[n].key {
          var e := LiveEntries(tr, p)[a];
          assert e in p;
          var i :| 0 <= i < n && p[i] == e;
          if e.key == s[n].key {
            assert Hit(tr, s, s[n].key, i);
          }
        }
      }
    }
  }

  /** The visits come in the order of the slots. */
  ghost predicate InSlotOrder<K, V>(tr: Traits<K, V>, s: seq<Entry<K, V>>, visited: seq<Entry<K, V>>, at: seq<nat>) {
    && |at| == |visited|
    && (forall a :: 0 <= a < |at| ==> at[a] < |s| && Live(tr, s[at[a]]) && s[at[a]] == visited[a])
    && (forall a, b :: 0 <= a < b < |at| ==> at[a] < at[b])
  }

  lemma {:induction false} ForEachVisitsInOrder<K, V>(tr: Traits<K, V>, s: seq<Entry<K, V>>) returns (at: seq<nat>)
    ensures InSlotOrder(tr, s, LiveEntries(tr, s), at)
  {
    if s == [] {
      at := [];
    } else {
      var n := |s| - 1;
      at := ForEachVisitsInOrder(tr, s[..n]);
      if Live(tr, s[n]) {
        at := at + [n];
      }
    }
  }

  /** The slots after a functor has gone over them in order, and the state it ends in. */
  function Swept<S, K(==), V>(tr: Traits<K, V>, functor: (S, K, V) -> (S, V), start: S, s: seq<Entry<K, V>>)
    : (r: (S, seq<Entry<K, V>>))
    ensures |r.1| == |s|
  {
    if s == [] then (start, [])
    else
      var e := s[|s| - 1];
      var (state, done) := Swept(tr, functor, start, s[..|s| - 1]);
      if Live(tr, e) then
        var (next, v) := functor(state, e.key, e.value);
        (next, done + [Entry(e.key, v)])
      else (state, done + [e])
  }

  /** A functor called on one entry after the other: its last state and the rewritten entries. */
  function Folded<S, K, V>(functor: (S, K, V) -> (S, V), start: S, s: seq<Entry<K, V>>): (S, seq<Entry<K, V>>) {
    if s == [] then (start, [])
    else
      var e := s[|s| - 1];
      var (state, done) := Folded(functor, start, s[..|s| - 1]);
      var (next, v) := functor(state, e.key, e.value);
      (next, done + [Entry(e.key, v)])
  }

  /** The functor is called on the entries from the first to the last: one that only keeps a log ends with the log
      of all of them. */
  lemma {:induction false} FoldedInOrder<K, V>(log: (seq<Entry<K, V>>, K, V) -> (seq<Entry<K, V>>, V),
                                              s: seq<Entry<K, V>>)
    requires forall l, k, v :: log(l, k, v) == (l + [Entry(k, v)], v)
    ensures Folded(log, [], s) == (s, s)
  {
    if s != [] {
      var n := |s| - 1;
      FoldedInOrder(log, s[..n]);
      assert s == s[..n] + [s[n]];
    }
  }

  lemma SweptNothing<S, K, V>(tr: Traits<K, V>, functor: (S, K, V) -> (S, V), start: S)
    ensures Swept(tr, functor, start, []) == (start, [])
  {
  }

  lemma SweptNext<S, K, V>(tr: Traits<K, V>, functor: (S, K, V) -> (S, V), start: S, s: seq<Entry<K, V>>, i: nat)
    requires i < |s|
    ensures var (state, done) := Swept(tr, functor, start, s[..i]);
      Swept(tr, functor, start, s[..i + 1]) ==
        if Live(tr, s[i]) then
          var (next, v) := functor(state, s[i].key, s[i].value);
          (next, done + [Entry(s[i].key, v)])
        else (state, done + [s[i]])
  {
    assert s[..i + 1][..i] == s[..i];
  }

  /** The functor sees exactly the live entries, in slot order, and the live entries afterwards are the ones it
      rewrote. */
  lemma {:induction false} SweptIsFolded<S, K, V>(tr: Traits<K, V>, functor: (S, K, V) -> (S, V), start: S,
                                                  s: seq<Entry<K, V>>)
    ensures var (end, slots) := Swept(tr, functor, start, s);
      (end, LiveEntries(tr, slots)) == Folded(functor, start, LiveEntries(tr, s))
  {
    if s != [] {
      var n := |s| - 1;
      SweptIsFolded(tr, functor, start, s[..n]);
      var slots := Swept(tr, functor, start, s).1;
      assert slots[..n] == Swept(tr, functor, start, s[..n]).1;
      if Live(tr, s[n]) {
        assert LiveEntries(tr, s)[..|LiveEntries(tr, s)| - 1] == LiveEntries(tr, s[..n]);
      } else {
        assert LiveEntries(tr, s) == LiveEntries(tr, s[..n]);
        assert LiveEntries(tr, slots) == LiveEntries(tr, slots[..n]);
      }
    }
  }

  lemma {:induction false} SweptKeys<S, K, V>(tr: Traits<K, V>, functor: (S, K, V) -> (S, V), start: S,
                                              s: seq<Entry<K, V>>)
    ensures var t := Swept(tr, functor, start, s).1;
      && (forall i :: 0 <= i < |s| ==> t[i].key == s[i].key)
      && LiveCount(tr, t) == LiveCount(tr, s) && UsedCount(tr, t) == UsedCount(tr, s)
  {
    if s != [] {
      var n := |s| - 1;
      SweptKeys(tr, functor, start, s[..n]);
      assert Swept(tr, functor, start, s).1[..n] == Swept(tr, functor, start, s[..n]).1;
      assert forall i :: 0 <= i < n ==> s[..n][i].key == s[i].key;
    }
  }

  lemma SweptKeeps<S, K(!new), V>(tr: Traits<K, V>, functor: (S, K, V) -> (S, V), start: S, t: Table<K, V>)
    requires TableInvariant(tr, t)
    ensures var u := t.(slots := Swept(tr, functor, start, t.slots).1);
      TableInvariant(tr, u) && Contents(tr, u.slots).Keys == Contents(tr, t.slots).Keys
  {
    hide Swept, LiveCount, UsedCount, Chained, Contents, Home;
    var u := Swept(tr, functor, start, t.slots).1;
    SweptKeys(tr, functor, start, t.slots);
    if t.slots != [] {
      SameKeys(tr, t.slots, u);
    }
    ContentsRepresents(tr, t.slots);
    ContentsRepresents(tr, u);
    forall k ensures k in Contents(tr, u) <==> k in Contents(tr, t.slots) {
      if k in Contents(tr, t.slots) {
        var i :| 0 <= i < |t.slots| && Live(tr, t.slots[i]) && t.slots[i].key == k;
        assert Live(tr, u[i]);
      }
      if k in Contents(tr, u) {
        var i :| 0 <= i < |u| && Live(tr, u[i]) && u[i].key == k;
        assert Live(tr, t.slots[i]);
      }
    }
  }

  /** The visited entries, read as key-value pairs, are the represented map: each key once, with its value. */
  ghost predicate Visits<K, V>(visited: seq<Entry<K, V>>, m: map<K, V>) {
    && (forall i :: 0 <= i < |visited| ==> visited[i].key in m && m[visited[i].key] == visited[i].value)
    && (forall i, j :: 0 <= i < j < |visited| ==> visited[i].key != visited[j].key)
    && (forall k :: k in m ==> exists i :: 0 <= i < |visited| && visited[i].key == k)
  }

  /** ForEach enumerates the represented map. */
  lemma ForEachVisitsTheMap<K(!new), V>(tr: Traits<K, V>, t: Table<K, V>)
    requires TableInvariant(tr, t)
    ensures Visits(LiveEntries(tr, t.slots), Contents(tr, t.slots))
    ensures |LiveEntries(tr, t.slots)| == t.size
  {
    hide LiveCount, UsedCount, Chained, IsPowerOfTwo, LiveEntries, Contents;
    var s, m := t.slots, Contents(tr, t.slots);
    ForEachVisitsOnce(tr, s);
    ContentsRepresents(tr, s);
    VisitedAreTheMap(tr, s, LiveEntries(tr, s), m);
  }

  lemma VisitedAreTheMap<K(!new), V>(tr: Traits<K, V>, s: seq<Entry<K, V>>, visited: seq<Entry<K, V>>, m: map<K, V>)
    requires Represents(tr, s, m)
    requires forall i :: 0 <= i < |s| && Live(tr, s[i]) ==> s[i] in visited
    requires forall e :: e in visited ==> Live(tr, e) && e in s
    requires forall a, b :: 0 <= a < b < |visited| ==> visited[a].key != visited[b].key
    ensures Visits(visited, m)
  {
    forall i | 0 <= i < |visited| ensures visited[i].key in m && m[visited[i].key] == visited[i].value {
      assert visited[i] in visited;
      var j :| 0 <= j < |s| && s[j] == visited[i];
    }
    forall k | k in m ensures exists i :: 0 <= i < |visited| && visited[i].key == k {
      var j :| 0 <= j < |s| && Live(tr, s[j]) && s[j].key == k;
      assert s[j] in visited;
    }
  }
}
