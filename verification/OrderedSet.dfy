/** The set that remembers insertion order: a linked list of object pointers, and a map from each object to
    a separately allocated cell holding the list iterator of that object. */
module OrderedSets {
  import opened Wrappers

  import opened HashMap
  import opened LoadPolicy
  import opened ProbeTable
  import opened TableSteps

  /** Addresses of list nodes and of iterator cells. */
  type NodeId = nat
  type CellId = nat

  datatype Iterator = End | Node(id: NodeId)

  // ----- The heap -----

  /** The part of the program's heap the sets use: iterator cells (each holding the node it points at) and
      the objects the sets may own. Deleting demands that the target is live, so no client can free twice. */
  class Memory<K(==, !new)> {
    var cells: map<CellId, NodeId>
    var nextCell: nat
    var objects: set<K>
    /** How often each cell address has been freed. */
    ghost var freed: multiset<CellId>

    /** Every cell ever allocated is either live and never freed, or gone and freed exactly once. */
    ghost predicate Valid()
      reads this
    {
      && (forall c: CellId :: c < nextCell ==> freed[c] == if c in cells then 0 else 1)
      && (forall c: CellId :: c in cells ==> c < nextCell)
      && (forall c: CellId :: c >= nextCell ==> freed[c] == 0)
    }

    constructor (live: set<K>)
      ensures Valid() && cells == map[] && objects == live
    {
      cells, nextCell, objects, freed := map[], 0, live, multiset{};
    }

    /** `new Iterator(...)` */
    method NewCell(node: NodeId) returns (c: CellId)
      requires Valid()
      modifies this
      ensures objects == old(objects) && freed == old(freed)
      ensures Valid() && c !in old(cells) && cells == old(cells)[c := node]
    {
      c := nextCell;
      cells := cells[c := node];
      nextCell := nextCell + 1;
    }

    /** `delete iterator` */
    method DeleteCell(c: CellId)
      requires Valid() && c in cells
      modifies this
      ensures objects == old(objects)
      ensures Valid() && cells == old(cells) - {c} && freed == old(freed) + multiset{c}
    {
      cells := cells - {c};
      freed := freed + multiset{c};
    }

    /** `delete object` */
    method DeleteObject(o: K)
      requires Valid() && o in objects
      modifies this
      ensures cells == old(cells) && nextCell == old(nextCell) && freed == old(freed)
      ensures Valid() && objects == old(objects) - {o}
    {
      objects := objects - {o};
    }
  }

  // ----- Agreement of index, cells and list, on values -----

  ghost predicate NoDuplicates<T>(s: seq<T>) {
    forall i, j :: 0 <= i < j < |s| ==> s[i] != s[j]
  }

  /** A list of nodes with the value each of them holds. */
  ghost predicate IsList<K>(nodes: seq<NodeId>, value: map<NodeId, K>) {
    NoDuplicates(nodes) && forall n :: n in value <==> n in nodes
  }

  /** The keys of the index `m` are exactly the elements of the list, and the cell of each element holds its node. */
  ghost predicate Agree<K>(m: map<K, CellId>, cells: map<CellId, NodeId>, nodes: seq<NodeId>, value: map<NodeId, K>) {
    && IsList(nodes, value)
    && (forall n :: n in nodes ==> value[n] in m && m[value[n]] in cells && cells[m[value[n]]] == n)
    && (forall k :: k in m ==> m[k] in cells && cells[m[k]] in nodes && value[cells[m[k]]] == k)
    && |m| == |nodes|
  }

  /** The elements in list order. */
  function Elements<K>(nodes: seq<NodeId>, value: map<NodeId, K>): (s: seq<K>)
    requires forall n :: n in nodes ==> n in value
    ensures |s| == |nodes|
  {
    seq(|nodes|, i requires 0 <= i < |nodes| => value[nodes[i]])
  }

  lemma ElementOfNode<K>(nodes: seq<NodeId>, value: map<NodeId, K>, n: NodeId)
    requires IsList(nodes, value) && n in nodes
    ensures value[n] in Elements(nodes, value)
  {
    var i :| 0 <= i < |nodes| && nodes[i] == n;
    assert Elements(nodes, value)[i] == value[n];
  }

  /** The keys of an agreeing index are the elements. */
  lemma KeysAreElements<K>(m: map<K, CellId>, cells: map<CellId, NodeId>, nodes: seq<NodeId>, value: map<NodeId, K>)
    requires Agree(m, cells, nodes, value)
    ensures forall k :: k in m <==> k in Elements(nodes, value)
  {
    forall k | k in m ensures k in Elements(nodes, value) {
      ElementOfNode(nodes, value, cells[m[k]]);
    }
  }

  lemma ElementsAfterPush<K>(nodes: seq<NodeId>, value: map<NodeId, K>, k: K, n: NodeId)
    requires IsList(nodes, value) && n !in nodes
    ensures IsList(nodes + [n], value[n := k])
    ensures Elements(nodes + [n], value[n := k]) == Elements(nodes, value) + [k]
    ensures multiset(Elements(nodes + [n], value[n := k])) == multiset(Elements(nodes, value)) + multiset{k}
  {
  }

  lemma ElementsAfterErase<K>(nodes: seq<NodeId>, value: map<NodeId, K>, p: nat)
    requires IsList(nodes, value) && p < |nodes|
    ensures IsList(Without(nodes, p), value - {nodes[p]})
    ensures Elements(Without(nodes, p), value - {nodes[p]}) == Without(Elements(nodes, value), p)
    ensures multiset(Without(Elements(nodes, value), p)) == multiset(Elements(nodes, value)) - multiset{value[nodes[p]]}
    ensures value[nodes[p]] in multiset(Elements(nodes, value))
  {
    WithoutFacts(nodes, p);
    WithoutFacts(Elements(nodes, value), p);
    ElementOfNode(nodes, value, nodes[p]);
  }

  /** The weaker fact that survives when list values are overwritten: the cells of the index are live and
      no two keys share one. */
  ghost predicate CellsOwned<K>(m: map<K, CellId>, cells: map<CellId, NodeId>) {
    && (forall k :: k in m ==> m[k] in cells)
    && (forall j, k :: j in m && k in m && m[j] == m[k] ==> j == k)
  }

  lemma AgreeOwns<K>(m: map<K, CellId>, cells: map<CellId, NodeId>, nodes: seq<NodeId>, value: map<NodeId, K>)
    requires Agree(m, cells, nodes, value)
    ensures CellsOwned(m, cells)
  {
  }

  lemma AgreeAfterPush<K>(m: map<K, CellId>, cells: map<CellId, NodeId>, nodes: seq<NodeId>, value: map<NodeId, K>,
                          k: K, c: CellId, n: NodeId)
    requires Agree(m, cells, nodes, value)
    requires k !in m && c !in cells && n !in nodes
    ensures Agree(m[k := c], cells[c := n], nodes + [n], value[n := k])
  {
  }

  function Without<T>(s: seq<T>, p: nat): seq<T>
    requires p < |s|
  {
    s[..p] + s[p + 1..]
  }

  lemma WithoutFacts<T>(s: seq<T>, p: nat)
    requires p < |s|
    ensures NoDuplicates(s) ==> NoDuplicates(Without(s, p)) && forall x :: x in Without(s, p) <==> x in s && x != s[p]
    ensures multiset(Without(s, p)) == multiset(s) - multiset{s[p]}
  {
    assert s == s[..p] + [s[p]] + s[p + 1..];
    if NoDuplicates(s) {
      forall x | x in s && x != s[p] ensures x in Without(s, p) {
        var i :| 0 <= i < |s| && s[i] == x;
        if i < p {
          assert Without(s, p)[i] == x;
        } else {
          assert Without(s, p)[i - 1] == x;
        }
      }
    }
  }

  lemma AgreeAfterErase<K>(m: map<K, CellId>, cells: map<CellId, NodeId>, nodes: seq<NodeId>, value: map<NodeId, K>,
                           p: nat)
    requires Agree(m, cells, nodes, value) && p < |nodes|
    ensures var k := value[nodes[p]];
      k in m && Agree(m - {k}, cells - {m[k]}, Without(nodes, p), value - {nodes[p]})
  {
    WithoutFacts(nodes, p);
    var k := value[nodes[p]];
    assert (m - {k}).Keys == m.Keys - {k};
    assert |(m - {k}).Keys| == |m.Keys| - 1;
    AgreeOwns(m, cells, nodes, value);
  }

  /** Cells that belong to others do not matter. */
  lemma AgreeFramed<K>(m: map<K, CellId>, cells: map<CellId, NodeId>, cells': map<CellId, NodeId>,
                       nodes: seq<NodeId>, value: map<NodeId, K>)
    requires Agree(m, cells, nodes, value)
    requires forall c :: c in m.Values && c in cells ==> c in cells' && cells'[c] == cells[c]
    ensures Agree(m, cells', nodes, value)
  {
  }

  /** Exactly as many live cells as elements. */
  lemma {:induction false} CellsNumberElements<K>(m: map<K, CellId>, cells: map<CellId, NodeId>)
    requires CellsOwned(m, cells)
    ensures |m.Values| == |m| && m.Values <= cells.Keys
    decreases |m|
  {
    if m != map[] {
      var k :| k in m;
      var r := m - {k};
      assert r.Keys == m.Keys - {k};
      CellsNumberElements(r, cells);
      assert m[k] !in r.Values;
      forall c | c in m.Values ensures c in r.Values + {m[k]} {
        var j :| j in m && m[j] == c;
        assert j == k || r[j] == c;
      }
      forall c | c in r.Values + {m[k]} ensures c in m.Values {
        if c != m[k] {
          var j :| j in r && r[j] == c;
          assert m[j] == c;
        }
      }
      assert m.Values == r.Values + {m[k]};
    }
  }

  /** In a map of pairwise inequivalent keys, an exact key is the one its own lookup finds. */
  lemma ExactKey<K(!new), V>(tr: Traits<K, V>, m: map<K, V>, k: K)
    requires Lawful(tr) && Inequivalent(tr, m) && k in m
    ensures Stores(tr, m, k) && StoredKey(tr, m, k) == k
    ensures MapFind(tr, m, k) == Some(m[k]) && MapErase(tr, m, k) == m - {k}
  {
  }

  lemma NewKey<K(!new), V>(tr: Traits<K, V>, m: map<K, V>, k: K, v: V)
    requires tr.equal(k, k) && !Sentinel(tr, k)
    requires forall q :: q in m ==> !tr.equal(q, k)
    ensures k !in m && MapInsert(tr, m, k, v) == m[k := v]
  {
  }

  // ----- The state of a set, on values -----

  /** Everything a set's operations change: the represented index, the live cells, the live objects, the
      list, and the ledger of objects pushed, deleted by the set, and handed back or dropped by it. */
  datatype SetState<K> = SetState(
    index: map<K, CellId>,
    cells: map<CellId, NodeId>,
    objects: set<K>,
    nodes: seq<NodeId>,
    value: map<NodeId, K>,
    nextNode: NodeId,
    pushed: multiset<K>,
    deleted: multiset<K>,
    released: multiset<K>)

  /** The list is a list, owned elements are live objects, and every pushed object is in the list, deleted,
      or handed back. */
  ghost predicate Accounted<K>(owned: bool, v: SetState<K>) {
    && IsList(v.nodes, v.value)
    && (forall n :: n in v.nodes ==> n < v.nextNode)
    && (owned ==> forall n :: n in v.nodes ==> v.value[n] in v.objects)
    && v.pushed == multiset(Elements(v.nodes, v.value)) + v.deleted + v.released
    && (!owned ==> v.deleted == multiset{})
  }

  /** The invariant between calls. */
  ghost predicate Consistent<K>(owned: bool, v: SetState<K>) {
    Accounted(owned, v) && Agree(v.index, v.cells, v.nodes, v.value)
  }

  /** What is left of the invariant while list values are being overwritten: the cells of the index are still the
      set's own, and the ledger has not lost count. */
  ghost predicate Overwritten<K>(owned: bool, v: SetState<K>) {
    && IsList(v.nodes, v.value) && CellsOwned(v.index, v.cells)
    && (forall n :: n in v.nodes ==> n < v.nextNode)
    && v.deleted + v.released <= v.pushed && (!owned ==> v.deleted == multiset{})
  }

  /** The set with a new index: what the ledger expects in the list but is no longer there counts as handed back,
      what is there instead as pushed. */
  function Reindexed<K>(v: SetState<K>, index: map<K, CellId>, cells: map<CellId, NodeId>): SetState<K>
    requires forall n :: n in v.nodes ==> n in v.value
  {
    var expected := v.pushed - v.deleted - v.released;
    var listed := multiset(Elements(v.nodes, v.value));
    v.(index := index, cells := cells,
       pushed := v.pushed + (listed - expected), released := v.released + (expected - listed))
  }

  /** Cells that belong to no key of this set. */
  ghost function Foreign<K>(v: SetState<K>): map<CellId, NodeId> {
    v.cells - v.index.Values
  }

  function AfterPush<K>(v: SetState<K>, k: K, c: CellId): SetState<K> {
    v.(index := v.index[k := c], cells := v.cells[c := v.nextNode],
       nodes := v.nodes + [v.nextNode], value := v.value[v.nextNode := k], nextNode := v.nextNode + 1,
       pushed := v.pushed + multiset{k})
  }

  lemma {:induction false} PushKeeps<K>(owned: bool, v: SetState<K>, k: K, c: CellId)
    requires Consistent(owned, v) && k !in v.index && c !in v.cells && (owned ==> k in v.objects)
    ensures var w := AfterPush(v, k, c);
      && Consistent(owned, w) && Foreign(w) == Foreign(v)
      && Elements(w.nodes, w.value) == Elements(v.nodes, v.value) + [k]
  {
    hide Agree, Elements, Foreign;
    ElementsAfterPush(v.nodes, v.value, k, v.nextNode);
    AgreeAfterPush(v.index, v.cells, v.nodes, v.value, k, c, v.nextNode);
    ForeignAfterPush(v, k, c);
  }

  lemma ForeignAfterPush<K>(v: SetState<K>, k: K, c: CellId)
    requires k !in v.index && c !in v.cells
    ensures Foreign(AfterPush(v, k, c)) == Foreign(v)
  {
    NewValue(v.index, k, c);
  }

  /** The element at position `p` leaves; its object is deleted if `destroy`, handed back otherwise. */
  function AfterErase<K>(v: SetState<K>, p: nat, destroy: bool): SetState<K>
    requires p < |v.nodes| && v.nodes[p] in v.value && v.value[v.nodes[p]] in v.index
  {
    var n, k := v.nodes[p], v.value[v.nodes[p]];
    v.(index := v.index - {k}, cells := v.cells - {v.index[k]},
       objects := if destroy then v.objects - {k} else v.objects,
       nodes := Without(v.nodes, p), value := v.value - {n},
       deleted := if destroy then v.deleted + multiset{k} else v.deleted,
       released := if destroy then v.released else v.released + multiset{k})
  }

  lemma {:induction false} EraseKeeps<K>(owned: bool, v: SetState<K>, p: nat, destroy: bool)
    requires Consistent(owned, v) && p < |v.nodes| && (destroy ==> owned)
    ensures v.nodes[p] in v.value && v.value[v.nodes[p]] in v.index
    ensures var w := AfterErase(v, p, destroy);
      && Consistent(owned, w) && Foreign(w) == Foreign(v)
      && Elements(w.nodes, w.value) == Without(Elements(v.nodes, v.value), p)
      && (destroy ==> v.value[v.nodes[p]] in v.objects)
  {
    AgreeAfterErase(v.index, v.cells, v.nodes, v.value, p);
    AgreeOwns(v.index, v.cells, v.nodes, v.value);
    ElementsDistinct(v.index, v.cells, v.nodes, v.value);
    hide Agree, Elements, CellsOwned, NoDuplicates;
    WithoutFacts(v.nodes, p);
    ElementsAfterErase(v.nodes, v.value, p);
    ForeignAfterErase(v.index, v.cells, v.value[v.nodes[p]]);
    EraseAccounted(owned, v, p, destroy);
  }

  /** What a client sees of an erase: the element leaves the list, and its object the heap if it is destroyed. */
  lemma EraseSeen<K>(owned: bool, v: SetState<K>, p: nat, destroy: bool)
    requires Consistent(owned, v) && p < |v.nodes| && (destroy ==> owned)
    ensures IsList(v.nodes, v.value) && v.value[v.nodes[p]] in v.index
    ensures var w, s, k := AfterErase(v, p, destroy), Elements(v.nodes, v.value), v.value[v.nodes[p]];
      && IsList(w.nodes, w.value) && Elements(w.nodes, w.value) == s[..p] + s[p + 1..]
      && w.objects == (if destroy then v.objects - {k} else v.objects) && (destroy ==> k in v.objects)
  {
    hide Agree, Elements, NoDuplicates, Accounted;
    EraseKeeps(owned, v, p, destroy);
    AccountedIsList(owned, v);
    AccountedIsList(owned, AfterErase(v, p, destroy));
  }

  lemma EraseAccounted<K>(owned: bool, v: SetState<K>, p: nat, destroy: bool)
    requires Accounted(owned, v) && p < |v.nodes| && (destroy ==> owned)
    requires v.nodes[p] in v.value && v.value[v.nodes[p]] in v.index
    requires forall a, b :: a in v.nodes && b in v.nodes && v.value[a] == v.value[b] ==> a == b
    ensures Accounted(owned, AfterErase(v, p, destroy))
  {
    WithoutFacts(v.nodes, p);
    ElementsAfterErase(v.nodes, v.value, p);
    hide NoDuplicates, Elements, Without;
  }

  lemma ForeignAfterErase<K>(m: map<K, CellId>, cells: map<CellId, NodeId>, k: K)
    requires CellsOwned(m, cells) && k in m
    ensures (cells - {m[k]}) - (m - {k}).Values == cells - m.Values
  {
    forall d | d in m.Values ensures d in (m - {k}).Values + {m[k]} {
      var j :| j in m && m[j] == d;
      assert j == k || (m - {k})[j] == d;
    }
  }

  /** No two nodes hold the same element. */
  lemma ElementsDistinct<K>(m: map<K, CellId>, cells: map<CellId, NodeId>, nodes: seq<NodeId>, value: map<NodeId, K>)
    requires Agree(m, cells, nodes, value)
    ensures forall a, b :: a in nodes && b in nodes && value[a] == value[b] ==> a == b
  {
  }

  // ----- The set -----

  lemma IndexFacts<K(!new)>(index: OpenHashMap<K, CellId>)
    requires index.Valid()
    ensures Lawful(index.traits) && Inequivalent(index.traits, index.Contents())
    ensures |index.Contents()| == index.size
  {
    if forall k :: k !in index.Contents() {
    } else {
      var k :| k in index.Contents();
      SlotsAgreeWithMap(index.traits, index.State(), k);
    }
    ContentsRepresents(index.traits, index.State().slots);
  }

  class OrderedSet<K(==, !new)> {
    const owned: bool
    const memory: Memory<K>
    const index: OpenHashMap<K, CellId>
    var nodes: seq<NodeId>
    var value: map<NodeId, K>
    var nextNode: NodeId
    ghost var pushed: multiset<K>
    ghost var deleted: multiset<K>
    ghost var released: multiset<K>

    ghost function Snapshot(): SetState<K>
      reads this, memory, index, index.entries
    {
      SetState(index.Contents(), memory.cells, memory.objects, nodes, value, nextNode, pushed, deleted, released)
    }

    ghost predicate Valid()
      reads this, memory, index, index.entries
    {
      memory.Valid() && index.Valid() && Consistent(owned, Snapshot())
    }

    /** The elements in iteration order. */
    ghost function Values(): seq<K>
      reads this
      requires forall n :: n in nodes ==> n in value
    {
      Elements(nodes, value)
    }

    constructor (owned: bool, memory: Memory<K>, tr: Traits<K, CellId>)
      requires memory.Valid() && Lawful(tr)
      ensures Valid() && Values() == [] && this.owned == owned && this.memory == memory && index.traits == tr
      ensures fresh(index) && index.entries == null && pushed == multiset{}
    {
      this.owned := owned;
      this.memory := memory;
      index := new OpenHashMap<K, CellId>(tr);
      nodes, value, nextNode := [], map[], 0;
      pushed, deleted, released := multiset{}, multiset{}, multiset{};
    }

    /** Count() is the number of elements and of the live iterator cells of this set. */
    method Count() returns (n: nat)
      requires Valid()
      ensures n == |Values()| == |index.Contents().Values|
      ensures index.Contents().Values <= memory.cells.Keys
    {
      AgreeOwns(index.Contents(), memory.cells, nodes, value);
      CellsNumberElements(index.Contents(), memory.cells);
      n := index.Size();
    }

    method Reserve(count: nat)
      requires Valid()
      requires index.capacity < count ==> RehashFits(count, index.size)
      modifies index
      ensures Valid() && Snapshot() == old(Snapshot())
      ensures index.capacity >= count && index.capacity >= old(index.capacity)
      ensures old(index.capacity) >= count ==> index.State() == old(index.State())
      ensures old(index.capacity) < count ==> index.capacity == RehashCapacity(count, old(index.size))
      ensures index.entries == old(index.entries) || index.entries == null || fresh(index.entries)
    {
      if index.capacity < count {
        index.Rehash(count);
      }
    }

    /** The iterator of the element equal to `item`, or End when there is none. */
    method Find(item: K) returns (iter: Iterator)
      requires Valid()
      ensures iter.End? <==> forall k :: k in Values() ==> !index.traits.equal(k, item)
      ensures iter.Node? ==> iter.id in nodes && index.traits.equal(value[iter.id], item)
    {
      hide TableInvariant, Live;
      var slot, _ := index.Find(item);
      KeysAreElements(index.Contents(), memory.cells, nodes, value);
      if slot.None? {
        return End;
      }
      var cell := index.entries[slot.value].value;
      iter := Node(memory.cells[cell]);
      ElementOfNode(nodes, value, iter.id);
    }

    /** `mMap.Insert(item, new Iterator(node))`, for an item no key equals. */
    method Cache(item: K, node: NodeId) returns (cell: CellId)
      requires memory.Valid() && index.Valid() && Fits(index.capacity, index.size, index.occupied)
      requires !Sentinel(index.traits, item)
      requires forall k :: k in index.Contents() ==> !index.traits.equal(k, item)
      modifies memory, index, index.entries
      ensures memory.Valid() && index.Valid()
      ensures cell !in old(memory.cells) && memory.cells == old(memory.cells)[cell := node]
      ensures memory.objects == old(memory.objects)
      ensures item !in old(index.Contents()) && index.Contents() == old(index.Contents())[item := cell]
      ensures old(Filled(index.State()) && index.capacity <= INSERT_LIMIT) ==>
        Filled(index.State()) && index.size == old(index.size) + 1
      ensures index.entries == old(index.entries) || fresh(index.entries)
    {
      hide TableInvariant, Inserted, MapInsert, Hit, Filled, Memory.Valid;
      IndexFacts(index);
      ghost var m, t := index.Contents(), index.State();
      cell := memory.NewCell(node);
      NewKey(index.traits, m, item, cell);
      var r := index.Insert(item, cell);
      FilledAfterCache(index, t, item, cell);
    }

    /** `cell` is the iterator cell allocated for the new element. */
    method PushBack(item: K) returns (ghost cell: CellId)
      requires Valid() && Fits(index.capacity, index.size, index.occupied)
      requires !Sentinel(index.traits, item)
      requires forall k :: k in Values() ==> !index.traits.equal(k, item)
      requires owned ==> item in memory.objects
      modifies this, memory, index, index.entries
      ensures Valid() && Values() == old(Values()) + [item]
      ensures cell !in old(memory.cells) && item !in old(index.Contents())
      ensures Snapshot() == AfterPush(old(Snapshot()), item, cell)
      ensures memory.objects == old(memory.objects) && memory.cells == old(memory.cells)[cell := old(nextNode)]
      ensures Foreign(Snapshot()) == old(Foreign(Snapshot()))
      ensures index.entries == old(index.entries) || fresh(index.entries)
    {
      hide TableInvariant, Elements, Accounted, Agree, Foreign, Inserted,
        OpenHashMap.Valid, OpenHashMap.State, OpenHashMap.Contents, Memory.Valid;
      ghost var v := Snapshot();
      KeysAreElements(v.index, v.cells, nodes, value);
      var n := nextNode;
      nodes, value, nextNode, pushed := nodes + [n], value[n := item], n + 1, pushed + multiset{item};
      cell := Cache(item, n);
      PushKeeps(owned, v, item, cell);
      assert Snapshot() == AfterPush(v, item, cell);
    }

    /** Frees the cell of the key equal to `item`, if there is one, and removes that key from the index. */
    method EraseFromCache(item: K) returns (erased: bool)
      requires memory.Valid() && index.Valid()
      requires forall k :: k in index.Contents() ==> index.Contents()[k] in memory.cells
      modifies memory, index, index.entries
      ensures memory.Valid() && index.Valid() && memory.objects == old(memory.objects)
      ensures index.Contents() == MapErase(index.traits, old(index.Contents()), item)
      ensures erased <==> Stores(index.traits, old(index.Contents()), item)
      ensures memory.cells == if erased
        then old(memory.cells) - {old(index.Contents())[StoredKey(index.traits, old(index.Contents()), item)]}
        else old(memory.cells)
      ensures index.entries == old(index.entries)
    {
      hide TableInvariant, Erased, MapErase, Hit, Memory.Valid;
      var slot, _ := index.Find(item);
      PresentIffStored(index, item);
      if slot.Some? {
        HitInRange(index, item, slot.value);
        memory.DeleteCell(index.entries[slot.value].value);
      }
      ghost var probes;
      erased, probes := index.Erase(item);
    }

    /** Frees the cell of a key of the index, removes the key, and deletes the object if asked to. */
    method Discard(item: K, destroy: bool)
      requires memory.Valid() && index.Valid() && item in index.Contents() && (destroy ==> item in memory.objects)
      requires Lawful(index.traits) && Inequivalent(index.traits, index.Contents())
      requires forall k :: k in index.Contents() ==> index.Contents()[k] in memory.cells
      modifies memory, index, index.entries
      ensures memory.Valid() && index.Valid() && index.entries == old(index.entries)
      ensures index.Contents() == old(index.Contents()) - {item}
      ensures memory.cells == old(memory.cells) - {old(index.Contents())[item]}
      ensures memory.objects == if destroy then old(memory.objects) - {item} else old(memory.objects)
    {
      hide TableInvariant, Erased, MapErase, MapFind, Stores, Lawful, Inequivalent,
        OpenHashMap.Valid, OpenHashMap.State, OpenHashMap.Contents, Memory.Valid;
      ExactKey(index.traits, index.Contents(), item);
      var erased := EraseFromCache(item);
      if destroy {
        memory.DeleteObject(item);
      }
    }

    /** Takes the element at position `p` out of index, cells and list. */
    method Remove(p: nat, destroy: bool)
      requires Valid() && p < |nodes| && (destroy ==> owned)
      modifies this, memory, index, index.entries
      ensures old(nodes[p] in value && value[nodes[p]] in index.Contents())
      ensures Valid() && Snapshot() == AfterErase(old(Snapshot()), p, destroy)
      ensures memory.objects == if destroy then old(memory.objects) - {old(value[nodes[p]])} else old(memory.objects)
      ensures destroy ==> old(value[nodes[p]] in memory.objects)
      ensures Values() == old(Values())[..p] + old(Values())[p + 1..]
      ensures index.entries == old(index.entries)
    {
      hide TableInvariant, Accounted, Agree, Foreign, Elements, Without, Lawful, Inequivalent,
        OpenHashMap.Valid, OpenHashMap.State, OpenHashMap.Contents, Memory.Valid;
      ghost var v := Snapshot();
      EraseKeeps(owned, v, p, destroy);
      EraseSeen(owned, v, p, destroy);
      AgreeCells(v.index, v.cells, nodes, value);
      IndexFacts(index);
      Discard(value[nodes[p]], destroy);
      ghost var w := AfterErase(v, p, destroy);
      value, nodes, deleted, released := value - {nodes[p]}, Without(nodes, p), w.deleted, w.released;
      assert Snapshot() == w;
    }

    /** Erases the element at `iter`, deleting its object if the set owns its elements; gives back the
        iterator of the following element. Erasing End does nothing. `p` is the position of `iter`. */
    method Erase(iter: Iterator) returns (next: Iterator, ghost p: nat)
      requires Valid() && (iter.Node? ==> iter.id in nodes)
      modifies this, memory, index, index.entries
      ensures Valid() && index.entries == old(index.entries)
      ensures iter.End? ==> next == End && Snapshot() == old(Snapshot())
      ensures iter.Node? ==>
        && p < |old(nodes)| && old(nodes)[p] == iter.id
        && old(nodes[p] in value && value[nodes[p]] in index.Contents())
        && Snapshot() == AfterErase(old(Snapshot()), p, owned)
        && next == (if p < |nodes| then Node(nodes[p]) else End)
        && Values() == old(Values())[..p] + old(Values())[p + 1..]
      ensures iter.Node? ==> old(iter.id in value) && (owned ==> old(value[iter.id] in memory.objects))
      ensures iter.Node? && owned ==> memory.objects == old(memory.objects) - {old(value[iter.id])}
      ensures !owned ==> memory.objects == old(memory.objects)
    {
      hide TableInvariant, Agree, Elements, OpenHashMap.Valid, OpenHashMap.State, OpenHashMap.Contents, Memory.Valid;
      next, p := End, 0;
      if iter.Node? {
        var q: nat :| q < |nodes| && nodes[q] == iter.id;
        p := q;
        Remove(q, owned);
        next := if q < |nodes| then Node(nodes[q]) else End;
      }
    }

    /** Erases the element equal to `item`, if there is one. */
    method EraseObject(item: K) returns (ghost p: nat)
      requires Valid()
      modifies this, memory, index, index.entries
      ensures Valid() && index.entries == old(index.entries)
      ensures (forall k :: k in old(Values()) ==> !index.traits.equal(k, item)) ==> Snapshot() == old(Snapshot())
      ensures (exists k :: k in old(Values()) && index.traits.equal(k, item)) ==>
        && p < |old(nodes)|
        && old(nodes[p] in value && value[nodes[p]] in index.Contents() && index.traits.equal(value[nodes[p]], item))
        && Snapshot() == AfterErase(old(Snapshot()), p, owned)
        && Values() == old(Values())[..p] + old(Values())[p + 1..]
      ensures forall k :: k in old(Values()) && index.traits.equal(k, item) ==>
        memory.objects == if owned then old(memory.objects) - {k} else old(memory.objects)
    {
      hide TableInvariant, Agree, Elements, OpenHashMap.Valid, OpenHashMap.State, OpenHashMap.Contents,
        Memory.Valid, AfterErase;
      var iter := Find(item);
      if iter.Node? {
        OneEqualElement(this, item, iter.id);
      }
      var next;
      next, p := Erase(iter);
    }

    /** Hands the element at `iter` back to the caller; its object is not deleted. */
    method Release(iter: Iterator) returns (result: K, ghost p: nat)
      requires Valid() && iter.Node? && iter.id in nodes
      modifies this, memory, index, index.entries
      ensures Valid() && index.entries == old(index.entries)
      ensures p < |old(nodes)| && old(nodes)[p] == iter.id
      ensures old(nodes[p] in value && value[nodes[p]] in index.Contents())
      ensures result == old(value[nodes[p]])
      ensures Snapshot() == AfterErase(old(Snapshot()), p, false)
      ensures memory.objects == old(memory.objects) && Values() == old(Values())[..p] + old(Values())[p + 1..]
    {
      hide TableInvariant, Agree, Elements, OpenHashMap.Valid, OpenHashMap.State, OpenHashMap.Contents, Memory.Valid;
      result := value[iter.id];
      var q: nat :| q < |nodes| && nodes[q] == iter.id;
      p := q;
      Remove(q, false);
    }

    /** Frees every cell of the index and gives its table back. */
    method ReleaseCacheMap()
      requires memory.Valid() && index.Valid() && CellsOwned(index.Contents(), memory.cells)
      modifies memory, index
      ensures memory.Valid() && index.Valid() && memory.objects == old(memory.objects)
      ensures memory.cells == old(memory.cells - index.Contents().Values)
      ensures index.entries == null && index.State() == Nothing() && index.Contents() == map[]
    {
      hide TableInvariant, CellsOwned, Visits, Memory.Valid;
      ghost var m, cells := index.Contents(), memory.cells;
      var visited := index.ForEach();
      ForEachVisitsTheMap(index.traits, index.State());
      VisitedCells(visited, m, cells);
      var i: nat := 0;
      while i < |visited|
        invariant i <= |visited| && memory.Valid() && memory.objects == old(memory.objects)
        invariant memory.cells == cells - CellsOf(visited[..i])
        modifies memory
      {
        CellsOfNext(visited, i);
        memory.DeleteCell(visited[i].value);
        i := i + 1;
      }
      assert visited[..|visited|] == visited;
      index.Release();
    }

    /** Deletes the owned objects, frees all cells, empties the list. */
    method Clear()
      requires Valid()
      modifies this, memory, index
      ensures Valid() && Snapshot() == AfterClear(owned, old(Snapshot()))
      ensures memory.objects ==
        if owned then old(memory.objects) - (set k | k in old(Values())) else old(memory.objects)
      ensures Values() == [] && index.Contents() == map[]
      ensures memory.cells == old(memory.cells) - old(index.Contents().Values)
      ensures index.entries == null
    {
      hide TableInvariant, Agree, CellsOwned, OpenHashMap.Valid, OpenHashMap.State, OpenHashMap.Contents, Memory.Valid,
        Accounted, Foreign, Elements, NoDuplicates;
      ghost var v := Snapshot();
      AccountedIsList(owned, v);
      AgreeOwns(v.index, v.cells, nodes, value);
      ClearKeeps(owned, v);
      if owned {
        DeleteElements();
      }
      ReleaseCacheMap();
      ghost var w := AfterClear(owned, v);
      nodes, value, deleted, released := [], map[], w.deleted, w.released;
      assert Snapshot() == w;
    }

    /** The loop of Clear over the list. */
    method DeleteElements()
      requires Valid() && owned
      modifies memory
      ensures memory.Valid() && memory.cells == old(memory.cells)
      ensures memory.objects == old(memory.objects) - (set k | k in Values())
    {
      hide TableInvariant, Agree, OpenHashMap.Valid, OpenHashMap.State, OpenHashMap.Contents, Memory.Valid;
      ghost var all := Values();
      ElementsDistinct(index.Contents(), memory.cells, nodes, value);
      var i: nat := 0;
      while i < |nodes|
        invariant i <= |nodes| && memory.Valid() && memory.cells == old(memory.cells)
        invariant memory.objects == old(memory.objects) - (set k | k in all[..i])
      {
        assert all[..i + 1] == all[..i] + [value[nodes[i]]];
        memory.DeleteObject(value[nodes[i]]);
        i := i + 1;
      }
      assert all[..|all|] == all;
    }

    /** `*iter = item`: the caller overwrites a list value; nothing else changes. */
    method SetValue(iter: Iterator, item: K)
      requires Overwritten(owned, Snapshot()) && iter.Node? && iter.id in nodes
      modifies this`value
      ensures Snapshot() == old(Snapshot()).(value := old(value)[iter.id := item])
      ensures Overwritten(owned, Snapshot())
    {
      value := value[iter.id := item];
    }

    /** Rebuilds the index after list values were overwritten, whether they were permuted or replaced by other
        objects. It needs that the list now holds pairwise inequivalent keys; those of an owning set have to be
        live objects. The ledger counts replaced objects as handed back and their replacements as pushed. */
    method ReorderCacheMap()
      requires memory.Valid() && index.Valid() && Overwritten(owned, Snapshot())
      requires owned ==> forall n :: n in nodes ==> value[n] in memory.objects
      requires PairwiseInequivalent(index.traits, Elements(nodes, value))
      requires forall k :: k in Elements(nodes, value) ==> !Sentinel(index.traits, k)
      requires |nodes| <= FILL_LIMIT
      modifies this`pushed, this`released, memory, index
      ensures Valid() && Snapshot() == Reindexed(old(Snapshot()), index.Contents(), memory.cells)
      ensures nodes == old(nodes) && value == old(value) && memory.objects == old(memory.objects)
      ensures Foreign(Snapshot()) == old(Foreign(Snapshot()))
    {
      hide TableInvariant, Accounted, CellsOwned, Agree, Elements, Memory.Valid, PairwiseInequivalent, NoDuplicates,
        Reindexed, OpenHashMap.Valid, OpenHashMap.State, OpenHashMap.Contents;
      ghost var v := Snapshot();
      ReleaseCacheMap();
      ReinsertElements();
      ghost var w := Reindexed(v, index.Contents(), memory.cells);
      ReindexedFields(v, index.Contents(), memory.cells);
      ReindexedAccounted(owned, v, index.Contents(), memory.cells);
      pushed, released := w.pushed, w.released;
      assert Snapshot() == w;
    }

    /** The loop of ReorderCacheMap over the list. */
    method ReinsertElements()
      requires memory.Valid() && index.Valid() && index.entries == null && index.State() == Nothing()
      requires index.Contents() == map[]
      requires IsList(nodes, value) && PairwiseInequivalent(index.traits, Elements(nodes, value))
      requires forall k :: k in Elements(nodes, value) ==> !Sentinel(index.traits, k)
      requires |nodes| <= FILL_LIMIT
      modifies memory, index
      ensures memory.Valid() && index.Valid() && memory.objects == old(memory.objects)
      ensures Agree(index.Contents(), memory.cells, nodes, value)
      ensures memory.cells - index.Contents().Values == old(memory.cells)
    {
      hide TableInvariant, Agree, Elements, Memory.Valid, PairwiseInequivalent, Sentinel, NoDuplicates, Filled, Prefix,
        OpenHashMap.Valid, OpenHashMap.Contents, OpenHashMap.State, Balanced;
      AgreeEmpty(memory.cells, nodes, value);
      NothingFilled(index);
      var i: nat := 0;
      while i < |nodes|
        invariant i <= |nodes| && memory.Valid() && index.Valid() && memory.objects == old(memory.objects)
        invariant Agree(index.Contents(), memory.cells, nodes[..i], Prefix(nodes, value, i))
        invariant memory.cells - index.Contents().Values == old(memory.cells)
        invariant Filled(index.State()) && index.size == i
        invariant index.entries == null || fresh(index.entries)
      {
        ReinsertElement(i);
        i := i + 1;
      }
      WholePrefix(nodes, value);
    }

    /** One round of that loop. */
    method ReinsertElement(i: nat)
      requires memory.Valid() && index.Valid() && i < |nodes| <= FILL_LIMIT
      requires IsList(nodes, value) && PairwiseInequivalent(index.traits, Elements(nodes, value))
      requires forall k :: k in Elements(nodes, value) ==> !Sentinel(index.traits, k)
      requires Agree(index.Contents(), memory.cells, nodes[..i], Prefix(nodes, value, i))
      requires Filled(index.State()) && index.size == i
      modifies memory, index, index.entries
      ensures memory.Valid() && index.Valid() && memory.objects == old(memory.objects)
      ensures Agree(index.Contents(), memory.cells, nodes[..i + 1], Prefix(nodes, value, i + 1))
      ensures memory.cells - index.Contents().Values == old(memory.cells - index.Contents().Values)
      ensures Filled(index.State()) && index.size == i + 1
      ensures index.entries == old(index.entries) || fresh(index.entries)
    {
      hide TableInvariant, Agree, Elements, Memory.Valid, PairwiseInequivalent, Sentinel, NoDuplicates, Filled, Prefix,
        Stores, OpenHashMap.Valid, OpenHashMap.Contents, OpenHashMap.State, Balanced;
      var item := value[nodes[i]];
      ElementOfNode(nodes, value, nodes[i]);
      RoomForNext(index, i);
      PrefixKeys(index.traits, index.Contents(), memory.cells, nodes, value, i);
      ghost var m, cells := index.Contents(), memory.cells;
      var cell := Cache(item, nodes[i]);
      PrefixNext(m, cells, nodes, value, i, cell);
    }

    /** Move construction: list, index, cells and ledger change hands; the source is left empty. */
    constructor Move(rhs: OrderedSet<K>)
      requires rhs.Valid()
      modifies rhs, rhs.index
      ensures Valid() && Snapshot() == old(rhs.Snapshot()) && owned == rhs.owned && memory == rhs.memory
      ensures Values() == old(rhs.Values()) && rhs.nodes == []
      ensures index.traits == rhs.index.traits && index.entries == old(rhs.index.entries) && fresh(index)
      ensures rhs.Valid() && rhs.Snapshot() == MovedFrom(old(rhs.Snapshot())) && rhs.index.entries == null
    {
      hide TableInvariant, Memory.Valid, Consistent, OpenHashMap.Valid, OpenHashMap.State, OpenHashMap.Contents;
      owned := rhs.owned;
      memory := rhs.memory;
      index := new OpenHashMap<K, CellId>.Move(rhs.index);
      nodes, value, nextNode := rhs.nodes, rhs.value, rhs.nextNode;
      pushed, deleted, released := rhs.pushed, rhs.deleted, rhs.released;
      new;
      MovedFromConsistent(rhs.owned, old(rhs.Snapshot()));
      rhs.index.Release();
      rhs.ForgetList();
      assert rhs.Snapshot() == MovedFrom(old(rhs.Snapshot()));
      assert Snapshot() == old(rhs.Snapshot());
    }

    /** Move assignment between distinct sets: what this set held is cleared (deleting it if owned), then
        the other set's list, index and cells change hands. */
    method MoveAssign(rhs: OrderedSet<K>)
      requires Valid() && rhs.Valid() && this != rhs && index != rhs.index
      requires owned == rhs.owned && memory == rhs.memory && index.traits == rhs.index.traits
      requires index.entries == null || index.entries != rhs.index.entries
      requires Apart(owned, Snapshot(), rhs.Snapshot())
      modifies this, memory, index, rhs, rhs.index
      ensures Valid() && Snapshot() == MovedOver(owned, old(Snapshot()), old(rhs.Snapshot()))
      ensures memory.objects ==
        if owned then old(memory.objects) - (set k | k in old(Values())) else old(memory.objects)
      ensures memory.cells == old(memory.cells) - old(index.Contents().Values)
      ensures Values() == old(rhs.Values()) && rhs.nodes == []
      ensures rhs.Valid()
      ensures rhs.Snapshot() == MovedFrom(old(rhs.Snapshot())).(cells := memory.cells, objects := memory.objects)
      ensures index.entries == old(rhs.index.entries) && rhs.index.entries == null
    {
      hide TableInvariant, Consistent, Agree, Elements, Foreign, Memory.Valid,
        OpenHashMap.Valid, OpenHashMap.State, OpenHashMap.Contents;
      ghost var v, r := Snapshot(), rhs.Snapshot();
      ConsistentIsList(owned, v);
      MovedOverConsistent(owned, v, r);
      MovedFromConsistent(owned, r.(cells := AfterClear(owned, v).cells, objects := AfterClear(owned, v).objects));
      Clear();
      Adopt(rhs);
      assert Snapshot() == MovedOver(owned, v, r);
    }

    /** Move assignment of a set to itself clears it: Clear comes first, moving the emptied table onto itself changes
        nothing, and whatever the list is left with by moving it onto itself is dropped. */
    method MoveAssignSelf()
      requires Valid()
      modifies this, memory, index
      ensures Valid() && Snapshot() == AfterClear(owned, old(Snapshot())) && index.entries == null
      ensures memory.objects ==
        if owned then old(memory.objects) - (set k | k in old(Values())) else old(memory.objects)
    {
      hide TableInvariant, Consistent, Elements, Foreign, Memory.Valid,
        OpenHashMap.Valid, OpenHashMap.State, OpenHashMap.Contents;
      Clear();
      index.MoveAssign(index);
      index.Release();
      nodes, value := [], map[];
    }

    /** The moves of list and index out of the other set. */
    method Adopt(rhs: OrderedSet<K>)
      requires index.Valid() && rhs.index.Valid() && this != rhs && index != rhs.index
        && index.traits == rhs.index.traits
      modifies this, index, rhs, rhs.index
      ensures index.Valid() && rhs.index.Valid() && index.entries == old(rhs.index.entries) && rhs.index.entries == null
      ensures index.Contents() == old(rhs.index.Contents()) && rhs.index.Contents() == map[]
      ensures nodes == old(rhs.nodes) && value == old(rhs.value) && nextNode == old(rhs.nextNode)
      ensures pushed == old(pushed + rhs.pushed) && deleted == old(deleted + rhs.deleted)
        && released == old(released + rhs.released)
      ensures rhs.nodes == [] && rhs.value == map[] && rhs.nextNode == old(rhs.nextNode)
      ensures rhs.pushed == rhs.deleted == rhs.released == multiset{}
    {
      hide TableInvariant, OpenHashMap.Valid, OpenHashMap.State, OpenHashMap.Contents;
      AdoptIndex(rhs);
      AdoptList(rhs);
    }

    method AdoptList(rhs: OrderedSet<K>)
      requires this != rhs
      modifies this`nodes, this`value, this`nextNode, this`pushed, this`deleted, this`released
      modifies rhs`nodes, rhs`value, rhs`pushed, rhs`deleted, rhs`released
      ensures nodes == old(rhs.nodes) && value == old(rhs.value) && nextNode == old(rhs.nextNode)
      ensures pushed == old(pushed + rhs.pushed) && deleted == old(deleted + rhs.deleted)
      ensures released == old(released + rhs.released)
      ensures rhs.nodes == [] && rhs.value == map[] && rhs.pushed == rhs.deleted == rhs.released == multiset{}
    {
      nodes, value, nextNode, pushed, deleted, released :=
        rhs.nodes, rhs.value, rhs.nextNode, pushed + rhs.pushed, deleted + rhs.deleted, released + rhs.released;
      rhs.ForgetList();
    }

    method AdoptIndex(rhs: OrderedSet<K>)
      requires index.Valid() && rhs.index.Valid() && index != rhs.index && index.traits == rhs.index.traits
      modifies index, rhs.index
      ensures index.Valid() && rhs.index.Valid() && index.entries == old(rhs.index.entries) && rhs.index.entries == null
      ensures index.Contents() == old(rhs.index.Contents()) && rhs.index.Contents() == map[]
    {
      hide TableInvariant, OpenHashMap.Valid, OpenHashMap.State, OpenHashMap.Contents;
      index.MoveAssign(rhs.index);
      rhs.index.Release();
    }

    /** The source's list after a move; its ledger went with the elements. */
    method ForgetList()
      modifies this`nodes, this`value, this`pushed, this`deleted, this`released
      ensures nodes == [] && value == map[]
      ensures pushed == deleted == released == multiset{}
    {
      nodes, value, pushed, deleted, released := [], map[], multiset{}, multiset{}, multiset{};
    }
  }

  /** At most one element is equal to a given object. */
  lemma OneEqualElement<K(!new)>(s: OrderedSet<K>, item: K, id: NodeId)
    requires s.Valid() && id in s.nodes && s.index.traits.equal(s.value[id], item)
    ensures forall k :: k in s.Values() && s.index.traits.equal(k, item) ==> k == s.value[id]
  {
    hide Agree, Elements, TableInvariant, Memory.Valid, OpenHashMap.Valid, OpenHashMap.State, OpenHashMap.Contents;
    IndexFacts(s.index);
    KeysAreElements(s.index.Contents(), s.memory.cells, s.nodes, s.value);
    AccountedIsList(s.owned, s.Snapshot());
    ElementOfNode(s.nodes, s.value, id);
    OneEqualKey(s.index.traits, s.index.Contents(), item, s.value[id]);
  }

  lemma OneEqualKey<K(!new), V>(tr: Traits<K, V>, m: map<K, V>, item: K, j: K)
    requires Lawful(tr) && Inequivalent(tr, m) && j in m && tr.equal(j, item)
    ensures forall k :: k in m && tr.equal(k, item) ==> k == j
  {
    forall k | k in m && tr.equal(k, item) ensures k == j {
      assert tr.equal(item, j) && tr.equal(k, j);
    }
  }

  // ----- Facts about moves -----

  lemma ConsistentIsList<K>(owned: bool, v: SetState<K>)
    requires Consistent(owned, v)
    ensures IsList(v.nodes, v.value)
  {
  }

  /** Two sets share no cell and, if they own their elements, no element. */
  ghost predicate Apart<K>(owned: bool, v: SetState<K>, r: SetState<K>) {
    && v.index.Values !! r.index.Values
    && (owned ==> forall a, b :: a in v.nodes && a in v.value && b in r.nodes && b in r.value ==>
      v.value[a] != r.value[b])
  }

  /** The emptied source of a move. */
  ghost function MovedFrom<K>(r: SetState<K>): SetState<K> {
    r.(index := map[], nodes := [], value := map[], pushed := multiset{}, deleted := multiset{}, released := multiset{})
  }

  /** The target of a move assignment: its own content cleared, then the source's content and ledger. */
  ghost function MovedOver<K>(owned: bool, v: SetState<K>, r: SetState<K>): SetState<K>
    requires forall n :: n in v.nodes ==> n in v.value
  {
    var c := AfterClear(owned, v);
    r.(cells := c.cells, objects := c.objects,
       pushed := c.pushed + r.pushed, deleted := c.deleted + r.deleted, released := c.released + r.released)
  }

  lemma MovedFromConsistent<K>(owned: bool, r: SetState<K>)
    ensures Consistent(owned, MovedFrom(r))
  {
  }

  lemma MovedOverConsistent<K>(owned: bool, v: SetState<K>, r: SetState<K>)
    requires Consistent(owned, v) && Consistent(owned, r) && Apart(owned, v, r)
    requires v.cells == r.cells && v.objects == r.objects
    ensures Consistent(owned, MovedOver(owned, v, r))
  {
    hide Agree, Accounted;
    AccountedIsList(owned, v);
    AgreeFramed(r.index, r.cells, v.cells - v.index.Values, r.nodes, r.value);
    MovedOverAccounted(owned, v, r);
  }

  lemma MovedOverAccounted<K>(owned: bool, v: SetState<K>, r: SetState<K>)
    requires Accounted(owned, v) && Accounted(owned, r) && Apart(owned, v, r) && v.objects == r.objects
    ensures Accounted(owned, MovedOver(owned, v, r))
  {
  }

  // ----- Facts about clearing and rebuilding -----

  ghost function CellsOf<K>(visited: seq<Entry<K, CellId>>): set<CellId> {
    set i | 0 <= i < |visited| :: visited[i].value
  }

  lemma VisitedCells<K>(visited: seq<Entry<K, CellId>>, m: map<K, CellId>, cells: map<CellId, NodeId>)
    requires Visits(visited, m) && CellsOwned(m, cells)
    ensures forall i :: 0 <= i < |visited| ==> visited[i].value in cells
    ensures forall i, j :: 0 <= i < j < |visited| ==> visited[i].value != visited[j].value
    ensures CellsOf(visited) == m.Values
  {
  }

  lemma CellsOfNext<K>(visited: seq<Entry<K, CellId>>, i: nat)
    requires i < |visited|
    requires forall a, b :: 0 <= a < b < |visited| ==> visited[a].value != visited[b].value
    ensures CellsOf(visited[..i + 1]) == CellsOf(visited[..i]) + {visited[i].value}
    ensures visited[i].value !in CellsOf(visited[..i])
  {
  }

  function AfterClear<K(==)>(owned: bool, v: SetState<K>): SetState<K>
    requires forall n :: n in v.nodes ==> n in v.value
  {
    var all := Elements(v.nodes, v.value);
    v.(index := map[], cells := v.cells - v.index.Values,
       objects := if owned then v.objects - (set k | k in all) else v.objects,
       nodes := [], value := map[],
       deleted := if owned then v.deleted + multiset(all) else v.deleted,
       released := if owned then v.released else v.released + multiset(all))
  }

  lemma ClearKeeps<K>(owned: bool, v: SetState<K>)
    requires Consistent(owned, v)
    ensures Consistent(owned, AfterClear(owned, v)) && Foreign(AfterClear(owned, v)) == Foreign(v)
  {
    hide Agree, Accounted;
    AccountedIsList(owned, v);
    ClearAccounted(owned, v);
    var empty: map<NodeId, K> := map[];
    AgreeEmpty(AfterClear(owned, v).cells, [], empty);
    assert Prefix([], empty, 0) == empty;
  }

  lemma ClearAccounted<K>(owned: bool, v: SetState<K>)
    requires Accounted(owned, v)
    ensures Accounted(owned, AfterClear(owned, v))
  {
  }

  lemma AccountedIsList<K>(owned: bool, v: SetState<K>)
    requires Accounted(owned, v)
    ensures IsList(v.nodes, v.value)
  {
  }

  /** The values of the first `i` nodes. */
  function Prefix<K>(nodes: seq<NodeId>, value: map<NodeId, K>, i: nat): map<NodeId, K>
    requires i <= |nodes| && forall n :: n in nodes ==> n in value
  {
    map n | n in nodes[..i] :: value[n]
  }

  lemma WholePrefix<K>(nodes: seq<NodeId>, value: map<NodeId, K>)
    requires IsList(nodes, value)
    ensures nodes[..|nodes|] == nodes && Prefix(nodes, value, |nodes|) == value
  {
  }

  lemma ConsistentOverwritten<K>(owned: bool, v: SetState<K>)
    requires Consistent(owned, v)
    ensures Overwritten(owned, v)
  {
  }

  lemma ReindexedFields<K>(v: SetState<K>, index: map<K, CellId>, cells: map<CellId, NodeId>)
    requires forall n :: n in v.nodes ==> n in v.value
    ensures var w := Reindexed(v, index, cells);
      w == v.(index := index, cells := cells, pushed := w.pushed, released := w.released)
  {
  }

  lemma ReindexedAccounted<K>(owned: bool, v: SetState<K>, index: map<K, CellId>, cells: map<CellId, NodeId>)
    requires Overwritten(owned, v)
    requires owned ==> forall n :: n in v.nodes ==> v.value[n] in v.objects
    ensures Accounted(owned, Reindexed(v, index, cells))
  {
    hide CellsOwned, Elements, NoDuplicates;
  }

  lemma AgreeEmpty<K>(cells: map<CellId, NodeId>, nodes: seq<NodeId>, value: map<NodeId, K>)
    requires forall n :: n in nodes ==> n in value
    ensures Agree(map[], cells, nodes[..0], Prefix(nodes, value, 0))
  {
  }

  ghost predicate PairwiseInequivalent<K, V>(tr: Traits<K, V>, s: seq<K>) {
    forall a, b :: 0 <= a < b < |s| ==> !tr.equal(s[a], s[b])
  }

  /** The next element is new to the index rebuilt so far. */
  lemma PrefixKeys<K(!new)>(tr: Traits<K, CellId>, m: map<K, CellId>, cells: map<CellId, NodeId>,
                            nodes: seq<NodeId>, value: map<NodeId, K>, i: nat)
    requires IsList(nodes, value) && i < |nodes|
    requires Agree(m, cells, nodes[..i], Prefix(nodes, value, i))
    requires PairwiseInequivalent(tr, Elements(nodes, value))
    ensures forall k :: k in m ==> !tr.equal(k, value[nodes[i]])
    ensures !Stores(tr, m, value[nodes[i]])
  {
    forall k | k in m ensures !tr.equal(k, value[nodes[i]]) {
      var n := cells[m[k]];
      var a :| 0 <= a < i && nodes[..i][a] == n;
      assert Elements(nodes, value)[a] == k && Elements(nodes, value)[i] == value[nodes[i]];
    }
  }

  lemma PrefixNext<K>(m: map<K, CellId>, cells: map<CellId, NodeId>, nodes: seq<NodeId>, value: map<NodeId, K>,
                      i: nat, c: CellId)
    requires IsList(nodes, value) && i < |nodes|
    requires Agree(m, cells, nodes[..i], Prefix(nodes, value, i))
    requires value[nodes[i]] !in m && c !in cells
    ensures var k := value[nodes[i]];
      && Agree(m[k := c], cells[c := nodes[i]], nodes[..i + 1], Prefix(nodes, value, i + 1))
      && cells[c := nodes[i]] - m[k := c].Values == cells - m.Values
  {
    var k, n := value[nodes[i]], nodes[i];
    assert nodes[..i + 1] == nodes[..i] + [n];
    assert Prefix(nodes, value, i + 1) == Prefix(nodes, value, i)[n := k];
    AgreeAfterPush(m, cells, nodes[..i], Prefix(nodes, value, i), k, c, n);
    NewValue(m, k, c);
  }

  lemma NewValue<K>(m: map<K, CellId>, k: K, c: CellId)
    requires k !in m
    ensures m[k := c].Values == m.Values + {c}
  {
    forall d | d in m.Values ensures d in m[k := c].Values {
      var j :| j in m && m[j] == d;
      assert m[k := c][j] == d;
    }
    assert m[k := c][k] == c;
  }

  lemma FilledAfterCache<K(!new)>(index: OpenHashMap<K, CellId>, t: Table<K, CellId>, item: K, cell: CellId)
    requires TableInvariant(index.traits, t) && Fits(|t.slots|, t.size, t.occupied)
    requires !Sentinel(index.traits, item) && !Stores(index.traits, ProbeTable.Contents(index.traits, t.slots), item)
    requires index.State() == Inserted(index.traits, t, item, cell)
    ensures Filled(t) && |t.slots| <= INSERT_LIMIT ==> Filled(index.State()) && index.size == t.size + 1
  {
    if Filled(t) && |t.slots| <= INSERT_LIMIT {
      FilledAfterInsert(index.traits, t, item, cell);
    }
  }

  lemma NothingFilled<K(!new)>(index: OpenHashMap<K, CellId>)
    requires index.State() == Nothing()
    ensures Filled(index.State()) && index.size == 0
  {
  }

  lemma RoomForNext<K(!new)>(index: OpenHashMap<K, CellId>, i: nat)
    requires index.Valid() && Filled(index.State()) && index.size == i
    requires i < FILL_LIMIT
    ensures index.capacity <= INSERT_LIMIT
  {
    FilledCapacity(index.traits, index.State());
  }

  lemma AgreeCells<K>(m: map<K, CellId>, cells: map<CellId, NodeId>, nodes: seq<NodeId>, value: map<NodeId, K>)
    requires Agree(m, cells, nodes, value)
    ensures forall k :: k in m ==> m[k] in cells
  {
  }

  lemma PresentIffStored<K(!new)>(index: OpenHashMap<K, CellId>, k: K)
    requires index.Valid()
    ensures Present(index.traits, index.State().slots, k) <==> Stores(index.traits, index.Contents(), k)
  {
    SlotsAgreeWithMap(index.traits, index.State(), k);
  }

  lemma HitInRange<K(!new)>(index: OpenHashMap<K, CellId>, k: K, i: nat)
    requires index.Valid() && Hit(index.traits, index.State().slots, k, i)
    ensures index.entries != null && i < index.entries.Length && index.entries[i] == index.State().slots[i]
  {
  }

  // ----- Permuting the values -----

  lemma NoDuplicatesCounts<T>(s: seq<T>, a: nat, b: nat)
    requires a < b < |s| && s[a] == s[b]
    ensures multiset(s)[s[a]] >= 2
  {
    assert s == s[..b] + [s[b]] + s[b + 1..];
    assert s[a] in s[..b];
  }

  lemma {:induction false} CountsAtMostOne<T>(s: seq<T>, x: T)
    requires NoDuplicates(s)
    ensures multiset(s)[x] <= 1
  {
    if s != [] {
      var n := |s| - 1;
      assert s == s[..n] + [s[n]];
      CountsAtMostOne(s[..n], x);
    }
  }

  /** Rearranging pairwise inequivalent elements leaves them pairwise inequivalent. */
  lemma RearrangedInequivalent<K(!new), V>(tr: Traits<K, V>, m: map<K, V>, s: seq<K>, t: seq<K>)
    requires Inequivalent(tr, m) && NoDuplicates(s) && (forall k :: k in s ==> k in m)
    requires multiset(t) == multiset(s)
    ensures PairwiseInequivalent(tr, t) && forall k :: k in t <==> k in s
  {
    forall k ensures k in t <==> k in s {
      assert k in multiset(t) <==> k in multiset(s);
    }
    forall a, b | 0 <= a < b < |t| ensures !tr.equal(t[a], t[b]) {
      CountsAtMostOne(s, t[a]);
      if t[a] == t[b] {
        NoDuplicatesCounts(t, a, b);
      }
    }
  }

  lemma ElementsNoDuplicates<K>(m: map<K, CellId>, cells: map<CellId, NodeId>, nodes: seq<NodeId>,
                                value: map<NodeId, K>)
    requires Agree(m, cells, nodes, value)
    ensures NoDuplicates(Elements(nodes, value))
  {
  }

  lemma {:induction false} RearrangedObjects<K>(owned: bool, v: SetState<K>, value: map<NodeId, K>)
    requires Accounted(owned, v) && IsList(v.nodes, value)
    requires multiset(Elements(v.nodes, value)) == multiset(Elements(v.nodes, v.value))
    ensures owned ==> forall n :: n in v.nodes ==> value[n] in v.objects
  {
    forall n | n in v.nodes ensures owned ==> value[n] in v.objects {
      ElementOfNode(v.nodes, value, n);
      assert value[n] in multiset(Elements(v.nodes, v.value));
      var i :| 0 <= i < |v.nodes| && Elements(v.nodes, v.value)[i] == value[n];
    }
  }

  /** After any permutation of the list's values, whatever nodes they end up in, ReorderCacheMap may be called, and
      it leaves the ledger as it was. */
  lemma {:induction false} AnyPermutationCanBeReindexed<K(!new)>(tr: Traits<K, CellId>, owned: bool, v: SetState<K>,
                                                                 value: map<NodeId, K>)
    requires Consistent(owned, v) && Inequivalent(tr, v.index)
    requires IsList(v.nodes, value)
    requires multiset(Elements(v.nodes, value)) == multiset(Elements(v.nodes, v.value))
    ensures Overwritten(owned, v.(value := value))
    ensures owned ==> forall n :: n in v.nodes ==> value[n] in v.objects
    ensures PairwiseInequivalent(tr, Elements(v.nodes, value))
    ensures forall k :: k in Elements(v.nodes, value) <==> k in v.index
    ensures Reindexed(v.(value := value), v.index, v.cells) == v.(value := value)
  {
    hide Agree, Elements, PairwiseInequivalent, NoDuplicates, CellsOwned, Reindexed;
    AgreeOwns(v.index, v.cells, v.nodes, v.value);
    KeysAreElements(v.index, v.cells, v.nodes, v.value);
    ElementsNoDuplicates(v.index, v.cells, v.nodes, v.value);
    RearrangedInequivalent(tr, v.index, Elements(v.nodes, v.value), Elements(v.nodes, value));
    RearrangedObjects(owned, v, value);
    RearrangedLedger(owned, v, value);
  }

  lemma RearrangedLedger<K>(owned: bool, v: SetState<K>, value: map<NodeId, K>)
    requires Accounted(owned, v) && IsList(v.nodes, value)
    requires multiset(Elements(v.nodes, value)) == multiset(Elements(v.nodes, v.value))
    ensures v.deleted + v.released <= v.pushed
    ensures Reindexed(v.(value := value), v.index, v.cells) == v.(value := value)
  {
    hide Elements, NoDuplicates;
    LedgerBalances(v.pushed, multiset(Elements(v.nodes, v.value)), v.deleted, v.released);
  }

  lemma LedgerBalances<K>(pushed: multiset<K>, listed: multiset<K>, deleted: multiset<K>, released: multiset<K>)
    requires pushed == listed + deleted + released
    ensures pushed - deleted - released == listed && deleted + released <= pushed
  {
  }
}
