/** The slot array of an open-addressed table seen as a value: which slots are live, the whole-table
    invariant that makes linear probing correct, and the finite map the slots represent. */
module ProbeTable {
  import opened Words
  import opened HashIndex

  /** One table slot. */
  datatype Entry<K, V> = Entry(key: K, value: V)

  /** The template parameters of the map: the hash and equality functors, the two sentinel keys, the
      value of a zeroed slot (`calloc`, `memset`) and the default value written by an erase. */
  datatype Traits<!K, V> = Traits(
    hash: K -> bv64,
    equal: (K, K) -> bool,
    empty: K,
    tombstone: K,
    zero: V,
    blank: V)

  /** What the map asks of its parameters: distinct sentinels, and an equality that is an
      equivalence and that the hash respects. */
  ghost predicate Lawful<K(!new), V>(tr: Traits<K, V>) {
    && tr.empty != tr.tombstone
    && (forall a :: tr.equal(a, a))
    && (forall a, b :: tr.equal(a, b) ==> tr.equal(b, a) && tr.hash(a) == tr.hash(b))
    && (forall a, b, c :: tr.equal(a, b) && tr.equal(b, c) ==> tr.equal(a, c))
  }

  predicate Live<K(==), V>(tr: Traits<K, V>, e: Entry<K, V>) {
    e.key != tr.empty && e.key != tr.tombstone
  }

  predicate Used<K(==), V>(tr: Traits<K, V>, e: Entry<K, V>) {
    e.key != tr.empty
  }

  function Home<K, V>(tr: Traits<K, V>, k: K, capacity: nat): (h: nat)
    requires IsPowerOfTwo(capacity)
    ensures h < capacity
  {
    Bucket(tr.hash(k), capacity)
  }

  /** Slot `i` is live and holds a key equal to `k`. */
  predicate Hit<K(==), V>(tr: Traits<K, V>, s: seq<Entry<K, V>>, k: K, i: int) {
    0 <= i < |s| && Live(tr, s[i]) && tr.equal(s[i].key, k)
  }

  /** No empty slot lies between a live key's home slot and its position. */
  ghost predicate Chained<K, V>(tr: Traits<K, V>, s: seq<Entry<K, V>>)
    requires IsPowerOfTwo(|s|)
  {
    forall i, j :: 0 <= i < |s| && 0 <= j < |s| && Live(tr, s[i]) &&
      Distance(Home(tr, s[i].key, |s|), j, |s|) < Distance(Home(tr, s[i].key, |s|), i, |s|)
      ==> Used(tr, s[j])
  }

  /** Live keys are pairwise inequivalent. */
  ghost predicate Distinct<K, V>(tr: Traits<K, V>, s: seq<Entry<K, V>>) {
    forall i, j :: 0 <= j < |s| && Live(tr, s[j]) && Hit(tr, s, s[j].key, i) ==> i == j
  }

  // ----- Counting slots -----

  function LiveCount<K(==), V>(tr: Traits<K, V>, s: seq<Entry<K, V>>): (n: nat)
    ensures n <= |s|
  {
    if s == [] then 0
    else LiveCount(tr, s[..|s| - 1]) + if Live(tr, s[|s| - 1]) then 1 else 0
  }

  function UsedCount<K(==), V>(tr: Traits<K, V>, s: seq<Entry<K, V>>): (n: nat)
    ensures n <= |s|
  {
    if s == [] then 0
    else UsedCount(tr, s[..|s| - 1]) + if Used(tr, s[|s| - 1]) then 1 else 0
  }

  lemma {:induction false} CountsAfterUpdate<K, V>(tr: Traits<K, V>, s: seq<Entry<K, V>>, w: nat, e: Entry<K, V>)
    requires w < |s|
    ensures LiveCount(tr, s[w := e])
         == LiveCount(tr, s) + (if Live(tr, e) then 1 else 0) - (if Live(tr, s[w]) then 1 else 0)
    ensures UsedCount(tr, s[w := e])
         == UsedCount(tr, s) + (if Used(tr, e) then 1 else 0) - (if Used(tr, s[w]) then 1 else 0)
  {
    var t := s[w := e];
    var n := |s| - 1;
    if w == n {
      assert t[..n] == s[..n];
    } else {
      CountsAfterUpdate(tr, s[..n], w, e);
      assert t[..n] == s[..n][w := e];
    }
  }

  lemma {:induction false} LiveAtMostUsed<K, V>(tr: Traits<K, V>, s: seq<Entry<K, V>>)
    ensures LiveCount(tr, s) <= UsedCount(tr, s)
  {
    if s != [] {
      LiveAtMostUsed(tr, s[..|s| - 1]);
    }
  }

  /** A table that is not completely used has an empty slot. */
  lemma {:induction false} EmptySlotExists<K, V>(tr: Traits<K, V>, s: seq<Entry<K, V>>) returns (e: nat)
    requires UsedCount(tr, s) < |s|
    ensures e < |s| && !Used(tr, s[e])
  {
    var n := |s| - 1;
    if !Used(tr, s[n]) {
      e := n;
    } else {
      e := EmptySlotExists(tr, s[..n]);
    }
  }

  lemma {:induction false} NoneLive<K, V>(tr: Traits<K, V>, s: seq<Entry<K, V>>)
    ensures LiveCount(tr, s) == 0 <==> forall i :: 0 <= i < |s| ==> !Live(tr, s[i])
    ensures UsedCount(tr, s) == 0 <==> forall i :: 0 <= i < |s| ==> !Used(tr, s[i])
  {
    if s != [] {
      var n := |s| - 1;
      NoneLive(tr, s[..n]);
      assert forall i :: 0 <= i < n ==> s[i] == s[..n][i];
    }
  }

  // ----- The free slot of a probe sequence -----

  /** `w` is the first slot of the probe sequence from `home` that is not live. */
  ghost predicate IsFirstFree<K, V>(tr: Traits<K, V>, s: seq<Entry<K, V>>, home: nat, w: int) {
    && 0 <= w < |s|
    && !Live(tr, s[w])
    && forall j :: 0 <= j < |s| && Distance(home, j, |s|) < Distance(home, w, |s|) ==> Live(tr, s[j])
  }

  ghost function FirstFree<K, V>(tr: Traits<K, V>, s: seq<Entry<K, V>>, home: nat): nat {
    if exists w :: IsFirstFree(tr, s, home, w)
    then var w :| IsFirstFree(tr, s, home, w); w
    else 0
  }

  lemma FirstFreeIs<K, V>(tr: Traits<K, V>, s: seq<Entry<K, V>>, home: nat, w: nat)
    requires home < |s| && IsFirstFree(tr, s, home, w)
    ensures FirstFree(tr, s, home) == w
  {
  }

  lemma {:induction false} FirstFreeExists<K, V>(tr: Traits<K, V>, s: seq<Entry<K, V>>, home: nat, steps: nat,
                                                 free: nat)
    requires home < |s| && free < |s| && !Live(tr, s[free])
    requires steps <= Distance(home, free, |s|)
    requires forall j :: 0 <= j < |s| && Distance(home, j, |s|) < steps ==> Live(tr, s[j])
    ensures IsFirstFree(tr, s, home, FirstFree(tr, s, home))
    decreases Distance(home, free, |s|) - steps
  {
    var w := if home + steps < |s| then home + steps else home + steps - |s|;
    assert forall j :: 0 <= j < |s| && Distance(home, j, |s|) == steps ==> j == w;
    if Live(tr, s[w]) {
      FirstFreeExists(tr, s, home, steps + 1, free);
    } else {
      assert IsFirstFree(tr, s, home, w);
      FirstFreeIs(tr, s, home, w);
    }
  }

  // ----- The represented map -----

  /** Some live slot stores exactly the key `k`. */
  ghost predicate Holds<K, V>(tr: Traits<K, V>, s: seq<Entry<K, V>>, k: K) {
    exists i :: 0 <= i < |s| && Live(tr, s[i]) && s[i].key == k
  }

  /** `m` maps exactly the live keys of `s` to the values stored beside them. */
  ghost predicate Represents<K, V>(tr: Traits<K, V>, s: seq<Entry<K, V>>, m: map<K, V>) {
    && (forall i :: 0 <= i < |s| && Live(tr, s[i]) ==> s[i].key in m && m[s[i].key] == s[i].value)
    && (forall k :: k in m ==> Holds(tr, s, k))
  }

  /** The finite map a table stands for: every live entry, under the key that is stored. */
  ghost function Contents<K, V>(tr: Traits<K, V>, s: seq<Entry<K, V>>): map<K, V> {
    if s == [] then map[]
    else
      var m := Contents(tr, s[..|s| - 1]);
      var e := s[|s| - 1];
      if Live(tr, e) then m[e.key := e.value] else m
  }

  lemma {:induction false} ContentsRepresents<K(!new), V>(tr: Traits<K, V>, s: seq<Entry<K, V>>)
    requires Lawful(tr) && Distinct(tr, s)
    ensures Represents(tr, s, Contents(tr, s))
    ensures |Contents(tr, s)| == LiveCount(tr, s)
  {
    if s != [] {
      var n := |s| - 1;
      var p := s[..n];
      assert Distinct(tr, p) by {
        forall i, j | 0 <= j < n && Live(tr, p[j]) && Hit(tr, p, p[j].key, i) ensures i == j {
          assert Hit(tr, s, s[j].key, i);
        }
      }
      ContentsRepresents(tr, p);
      var m := Contents(tr, p);
      if Live(tr, s[n]) && s[n].key in m {
        var i :| 0 <= i < n && Live(tr, p[i]) && p[i].key == s[n].key;
        assert Hit(tr, s, s[n].key, i);
      }
      forall k | k in Contents(tr, s) ensures Holds(tr, s, k) {
        if k in m {
          var i :| 0 <= i < n && Live(tr, p[i]) && p[i].key == k;
          assert Live(tr, s[i]) && s[i].key == k;
        } else {
          assert s[n].key == k;
        }
      }
      forall i | 0 <= i < |s| && Live(tr, s[i])
        ensures s[i].key in Contents(tr, s) && Contents(tr, s)[s[i].key] == s[i].value
      {
        if i < n {
          assert p[i] == s[i];
        }
      }
    }
  }

  lemma RepresentsUnique<K, V>(tr: Traits<K, V>, s: seq<Entry<K, V>>, m: map<K, V>, n: map<K, V>)
    requires Represents(tr, s, m) && Represents(tr, s, n)
    ensures m == n
  {
  }

  // ----- Changing one slot -----

  /** Everything the probe loops rely on about the slots themselves. */
  ghost predicate WellFormed<K(!new), V>(tr: Traits<K, V>, s: seq<Entry<K, V>>) {
    Lawful(tr) && IsPowerOfTwo(|s|) && Chained(tr, s) && Distinct(tr, s)
  }

  /** A live key is met by a probe for any equal key before the probe meets an empty slot. */
  lemma HitComesBeforeEmpty<K(!new), V>(tr: Traits<K, V>, s: seq<Entry<K, V>>, k: K, i: nat, e: nat)
    requires WellFormed(tr, s) && Hit(tr, s, k, i)
    requires e < |s| && !Used(tr, s[e])
    ensures Distance(Home(tr, k, |s|), i, |s|) < Distance(Home(tr, k, |s|), e, |s|)
  {
  }

  /** Storing a new key in the first free slot of its probe sequence. */
  lemma StoreNew<K(!new), V>(tr: Traits<K, V>, s: seq<Entry<K, V>>, k: K, v: V, w: nat)
    requires WellFormed(tr, s)
    requires k != tr.empty && k != tr.tombstone
    requires forall i :: !Hit(tr, s, k, i)
    requires IsFirstFree(tr, s, Home(tr, k, |s|), w)
    ensures WellFormed(tr, s[w := Entry(k, v)])
    ensures k !in Contents(tr, s)
    ensures Contents(tr, s[w := Entry(k, v)]) == Contents(tr, s)[k := v]
  {
    StoreNewChained(tr, s, k, v, w);
    StoreNewDistinct(tr, s, k, v, w);
    StoreNewContents(tr, s, k, v, w);
  }

  lemma StoreNewChained<K(!new), V>(tr: Traits<K, V>, s: seq<Entry<K, V>>, k: K, v: V, w: nat)
    requires WellFormed(tr, s)
    requires k != tr.empty && k != tr.tombstone
    requires IsFirstFree(tr, s, Home(tr, k, |s|), w)
    ensures Chained(tr, s[w := Entry(k, v)])
  {
  }

  lemma StoreNewDistinct<K(!new), V>(tr: Traits<K, V>, s: seq<Entry<K, V>>, k: K, v: V, w: nat)
    requires Lawful(tr) && Distinct(tr, s) && w < |s|
    requires forall i :: !Hit(tr, s, k, i)
    ensures Distinct(tr, s[w := Entry(k, v)])
  {
    var t := s[w := Entry(k, v)];
    forall j, i | 0 <= j < |t| && Live(tr, t[j]) && Hit(tr, t, t[j].key, i) ensures i == j {
      assert !Hit(tr, s, k, i) && !Hit(tr, s, k, j);
      if i != w && j != w {
        assert Hit(tr, s, s[j].key, i);
      }
    }
  }

  lemma StoreNewContents<K(!new), V>(tr: Traits<K, V>, s: seq<Entry<K, V>>, k: K, v: V, w: nat)
    requires Lawful(tr) && Distinct(tr, s) && w < |s| && Distinct(tr, s[w := Entry(k, v)])
    requires k != tr.empty && k != tr.tombstone && !Live(tr, s[w])
    requires forall i :: !Hit(tr, s, k, i)
    ensures k !in Contents(tr, s)
    ensures Contents(tr, s[w := Entry(k, v)]) == Contents(tr, s)[k := v]
  {
    var t := s[w := Entry(k, v)];
    ContentsRepresents(tr, s);
    ContentsRepresents(tr, t);
    var m := Contents(tr, s);
    if k in m {
      var i :| 0 <= i < |s| && Live(tr, s[i]) && s[i].key == k;
      assert Hit(tr, s, k, i);
    }
    assert t[w].key == k;
    forall q | q in m ensures Holds(tr, t, q) {
      var i :| 0 <= i < |s| && Live(tr, s[i]) && s[i].key == q;
      assert t[i] == s[i];
    }
    RepresentsUnique(tr, t, Contents(tr, t), m[k := v]);
  }

  /** Overwriting the value of a live slot keeps the stored key. */
  lemma {:induction false} StoreValue<K(!new), V>(tr: Traits<K, V>, s: seq<Entry<K, V>>, v: V, w: nat)
    requires WellFormed(tr, s)
    requires w < |s| && Live(tr, s[w])
    ensures WellFormed(tr, s[w := Entry(s[w].key, v)])
    ensures s[w].key in Contents(tr, s)
    ensures Contents(tr, s[w := Entry(s[w].key, v)]) == Contents(tr, s)[s[w].key := v]
  {
    SameKeys(tr, s, s[w := Entry(s[w].key, v)]);
    StoreValueContents(tr, s, v, w);
  }

  lemma SameKeys<K(!new), V>(tr: Traits<K, V>, s: seq<Entry<K, V>>, t: seq<Entry<K, V>>)
    requires WellFormed(tr, s) && |t| == |s|
    requires forall i :: 0 <= i < |s| ==> t[i].key == s[i].key
    ensures WellFormed(tr, t)
  {
    forall j, i | 0 <= j < |t| && Live(tr, t[j]) && Hit(tr, t, t[j].key, i) ensures i == j {
      assert Live(tr, s[j]) && Hit(tr, s, s[j].key, i);
    }
    forall i, j | 0 <= i < |t| && 0 <= j < |t| && Live(tr, t[i]) &&
        Distance(Home(tr, t[i].key, |t|), j, |t|) < Distance(Home(tr, t[i].key, |t|), i, |t|)
      ensures Used(tr, t[j])
    {
      assert Live(tr, s[i]) && Used(tr, s[j]);
    }
  }

  lemma StoreValueContents<K(!new), V>(tr: Traits<K, V>, s: seq<Entry<K, V>>, v: V, w: nat)
    requires Lawful(tr) && Distinct(tr, s) && w < |s| && Live(tr, s[w])
    requires Distinct(tr, s[w := Entry(s[w].key, v)])
    ensures s[w].key in Contents(tr, s)
    ensures Contents(tr, s[w := Entry(s[w].key, v)]) == Contents(tr, s)[s[w].key := v]
  {
    var k := s[w].key;
    var t := s[w := Entry(k, v)];
    ContentsRepresents(tr, s);
    ContentsRepresents(tr, t);
    var m := Contents(tr, s);
    forall q | q in m ensures Holds(tr, t, q) {
      var i :| 0 <= i < |s| && Live(tr, s[i]) && s[i].key == q;
      assert t[i].key == q && Live(tr, t[i]);
    }
    forall i | 0 <= i < |t| && Live(tr, t[i]) && i != w ensures t[i].key != k {
      if s[i].key == k { assert Hit(tr, s, s[i].key, w); }
    }
    RepresentsUnique(tr, t, Contents(tr, t), m[k := v]);
  }

  /** Writing a tombstone over a live slot. */
  lemma StoreTombstone<K(!new), V>(tr: Traits<K, V>, s: seq<Entry<K, V>>, w: nat)
    requires WellFormed(tr, s)
    requires w < |s| && Live(tr, s[w])
    ensures WellFormed(tr, s[w := Entry(tr.tombstone, tr.blank)])
    ensures s[w].key in Contents(tr, s)
    ensures Contents(tr, s[w := Entry(tr.tombstone, tr.blank)]) == Contents(tr, s) - {s[w].key}
  {
    var t := s[w := Entry(tr.tombstone, tr.blank)];
    forall j, i | 0 <= j < |t| && Live(tr, t[j]) && Hit(tr, t, t[j].key, i) ensures i == j {
      assert Hit(tr, s, s[j].key, i);
    }
    TombstoneChained(tr, s, w);
    TombstoneContents(tr, s, w);
  }

  lemma TombstoneChained<K(!new), V>(tr: Traits<K, V>, s: seq<Entry<K, V>>, w: nat)
    requires WellFormed(tr, s)
    requires w < |s| && Live(tr, s[w])
    ensures Chained(tr, s[w := Entry(tr.tombstone, tr.blank)])
  {
  }

  lemma TombstoneContents<K(!new), V>(tr: Traits<K, V>, s: seq<Entry<K, V>>, w: nat)
    requires Lawful(tr) && Distinct(tr, s) && w < |s| && Live(tr, s[w])
    requires Distinct(tr, s[w := Entry(tr.tombstone, tr.blank)])
    ensures s[w].key in Contents(tr, s)
    ensures Contents(tr, s[w := Entry(tr.tombstone, tr.blank)]) == Contents(tr, s) - {s[w].key}
  {
    var k := s[w].key;
    var t := s[w := Entry(tr.tombstone, tr.blank)];
    ContentsRepresents(tr, s);
    ContentsRepresents(tr, t);
    var m := Contents(tr, s);
    forall q | q in m - {k} ensures Holds(tr, t, q) {
      var i :| 0 <= i < |s| && Live(tr, s[i]) && s[i].key == q;
      assert t[i] == s[i];
    }
    forall i | 0 <= i < |t| && Live(tr, t[i]) ensures t[i].key != k && t[i] == s[i] {
      if s[i].key == k { assert Hit(tr, s, s[i].key, w); }
    }
    RepresentsUnique(tr, t, Contents(tr, t), m - {k});
  }

  // ----- Rebuilding -----

  function Zeroed<K, V>(tr: Traits<K, V>, capacity: nat): seq<Entry<K, V>> {
    seq(capacity, i => Entry(tr.empty, tr.zero))
  }

  /** Reinsertion without any equality test: the entry goes to the first free slot of its probe sequence. */
  ghost function Place<K, V>(tr: Traits<K, V>, s: seq<Entry<K, V>>, e: Entry<K, V>): (t: seq<Entry<K, V>>)
    requires IsPowerOfTwo(|s|)
    ensures |t| == |s|
  {
    var w := FirstFree(tr, s, Home(tr, e.key, |s|));
    if w < |s| then s[w := e] else s
  }

  /** The new table after the first `i` old slots have been scanned. */
  ghost function Refill<K, V>(tr: Traits<K, V>, s: seq<Entry<K, V>>, i: nat, capacity: nat): (t: seq<Entry<K, V>>)
    requires i <= |s| && IsPowerOfTwo(capacity)
    ensures |t| == capacity
  {
    if i == 0 then Zeroed(tr, capacity)
    else
      var t := Refill(tr, s, i - 1, capacity);
      if Live(tr, s[i - 1]) then Place(tr, t, s[i - 1]) else t
  }

  /** Reinserting into a table with room never loses an entry, never duplicates a key, leaves no
      tombstone and establishes the chain invariant of the new mask. */
  lemma {:induction false} RefillFacts<K(!new), V>(tr: Traits<K, V>, s: seq<Entry<K, V>>, i: nat, capacity: nat)
    requires Lawful(tr) && Distinct(tr, s)
    requires i <= |s| && IsPowerOfTwo(capacity) && LiveCount(tr, s[..i]) < capacity
    ensures var t := Refill(tr, s, i, capacity);
      && WellFormed(tr, t)
      && Contents(tr, t) == Contents(tr, s[..i])
      && LiveCount(tr, t) == UsedCount(tr, t) == LiveCount(tr, s[..i])
      && (forall j :: 0 <= j < capacity ==> t[j].key != tr.tombstone)
  {
    var t := Refill(tr, s, i, capacity);
    if i == 0 {
      NoneLive(tr, t);
      ContentsRepresents(tr, t);
      RepresentsUnique(tr, t, Contents(tr, t), map[]);
    } else {
      assert s[..i][..i - 1] == s[..i - 1];
      RefillFacts(tr, s, i - 1, capacity);
      if Live(tr, s[i - 1]) {
        var p := Refill(tr, s, i - 1, capacity);
        PlaceFacts(tr, s, i - 1, p);
      }
    }
  }

  lemma PlaceFacts<K(!new), V>(tr: Traits<K, V>, s: seq<Entry<K, V>>, i: nat, p: seq<Entry<K, V>>)
    requires Lawful(tr) && Distinct(tr, s) && i < |s| && Live(tr, s[i])
    requires WellFormed(tr, p) && Contents(tr, p) == Contents(tr, s[..i])
    requires LiveCount(tr, p) == UsedCount(tr, p) < |p|
    requires forall j :: 0 <= j < |p| ==> p[j].key != tr.tombstone
    ensures var t := Place(tr, p, s[i]);
      && IsFirstFree(tr, p, Home(tr, s[i].key, |p|), FirstFree(tr, p, Home(tr, s[i].key, |p|)))
      && WellFormed(tr, t)
      && Contents(tr, t) == Contents(tr, s[..i])[s[i].key := s[i].value]
      && LiveCount(tr, t) == UsedCount(tr, t) == LiveCount(tr, p) + 1
      && (forall j :: 0 <= j < |t| ==> t[j].key != tr.tombstone)
  {
    var e := s[i];
    var free := EmptySlotExists(tr, p);
    var home := Home(tr, e.key, |p|);
    FirstFreeExists(tr, p, home, 0, free);
    var w := FirstFree(tr, p, home);
    forall j ensures !Hit(tr, p, e.key, j) {
      if Hit(tr, p, e.key, j) {
        PrefixKeyIsNew(tr, s, i, p, j);
      }
    }
    StoreNew(tr, p, e.key, e.value, w);
    CountsAfterUpdate(tr, p, w, e);
    assert e == Entry(e.key, e.value);
  }

  lemma PrefixKeyIsNew<K(!new), V>(tr: Traits<K, V>, s: seq<Entry<K, V>>, i: nat, p: seq<Entry<K, V>>, j: nat)
    requires Lawful(tr) && Distinct(tr, s) && i < |s| && Live(tr, s[i])
    requires Distinct(tr, p) && Contents(tr, p) == Contents(tr, s[..i])
    ensures !Hit(tr, p, s[i].key, j)
  {
    if Hit(tr, p, s[i].key, j) {
      ContentsRepresents(tr, p);
      forall a, b | 0 <= b < i && Live(tr, s[..i][b]) && Hit(tr, s[..i], s[..i][b].key, a) ensures a == b {
        assert Hit(tr, s, s[b].key, a);
      }
      ContentsRepresents(tr, s[..i]);
      var q := p[j].key;
      assert q in Contents(tr, s[..i]);
      var l :| 0 <= l < i && Live(tr, s[..i][l]) && s[..i][l].key == q;
      assert Hit(tr, s, s[i].key, l);
    }
  }
}
