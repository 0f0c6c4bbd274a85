/** Whole runs of one ordered set: any sequence of its calls is the same calls on a plain list, and cells and
    objects are conserved. */
module OrderedSetRuns {
  import opened OrderedSets

  /** One call: PushBack with the cell it allocated, Erase (`destroy`) or Release of the element at a position,
      Clear, Reserve, or the overwriting of the list values followed by ReorderCacheMap, with the new elements in
      list order and the index and cells it ends with. */
  datatype SetOp<K> =
    | Push(item: K, cell: CellId)
    | Remove(position: nat, destroy: bool)
    | ClearAll
    | ReserveRoom
    | Reorder(arranged: seq<K>, index: map<K, CellId>, cells: map<CellId, NodeId>)

  // ----- Values by position -----

  function IndexOf<T(==)>(s: seq<T>, x: T): (i: nat)
    requires x in s
    ensures i < |s| && s[i] == x
  {
    if s[0] == x then 0 else 1 + IndexOf(s[1..], x)
  }

  /** The node values that put `elements` into the list in this order. */
  function Assigned<K>(nodes: seq<NodeId>, elements: seq<K>): map<NodeId, K>
    requires |elements| == |nodes|
  {
    map n | n in nodes :: elements[IndexOf(nodes, n)]
  }

  lemma AssignedElements<K>(nodes: seq<NodeId>, elements: seq<K>)
    requires NoDuplicates(nodes) && |elements| == |nodes|
    ensures IsList(nodes, Assigned(nodes, elements))
    ensures Elements(nodes, Assigned(nodes, elements)) == elements
  {
    var value := Assigned(nodes, elements);
    forall i | 0 <= i < |nodes| ensures Elements(nodes, value)[i] == elements[i] {
      assert nodes[IndexOf(nodes, nodes[i])] == nodes[i];
    }
  }

  lemma AssignedBack<K>(nodes: seq<NodeId>, value: map<NodeId, K>)
    requires IsList(nodes, value)
    ensures Assigned(nodes, Elements(nodes, value)) == value
  {
  }

  // ----- Calls -----

  /** What the calls require of the state they meet. An owning set deletes what it erases. */
  ghost predicate Allowed<K>(owned: bool, v: SetState<K>, op: SetOp<K>) {
    match op
    case Push(k, c) => k !in v.index && c !in v.cells && (owned ==> k in v.objects)
    case Remove(p, destroy) => p < |v.nodes| && (destroy ==> owned)
    case ClearAll => true
    case ReserveRoom => true
    case Reorder(arranged, index, cells) =>
      && |arranged| == |v.nodes|
      && (owned ==> forall k :: k in arranged ==> k in v.objects)
      && Agree(index, cells, v.nodes, Assigned(v.nodes, arranged))
      && cells - index.Values == Foreign(v)
  }

  ghost function After<K>(owned: bool, v: SetState<K>, op: SetOp<K>): SetState<K>
    requires Consistent(owned, v) && Allowed(owned, v, op)
  {
    match op
    case Push(k, c) => AfterPush(v, k, c)
    case Remove(p, destroy) => EraseKeeps(owned, v, p, destroy); AfterErase(v, p, destroy)
    case ClearAll => AfterClear(owned, v)
    case ReserveRoom => v
    case Reorder(arranged, index, cells) => Reindexed(v.(value := Assigned(v.nodes, arranged)), index, cells)
  }

  /** Overwriting the list values and then calling ReorderCacheMap is one `Reorder` call. */
  lemma ReindexingIsACall<K>(owned: bool, v: SetState<K>, value: map<NodeId, K>, w: SetState<K>)
    requires Consistent(owned, v) && IsList(v.nodes, value)
    requires w == Reindexed(v.(value := value), w.index, w.cells) && Consistent(owned, w) && Foreign(w) == Foreign(v)
    ensures Call(owned, v, Reorder(Elements(v.nodes, value), w.index, w.cells), w)
  {
    hide Agree, NoDuplicates, Reindexed, Elements, Assigned, Foreign;
    var u := v.(value := value);
    AssignedBack(v.nodes, value);
    ReindexedFields(u, w.index, w.cells);
    ElementsAreLive(owned, w);
    ForeignIs(w);
  }

  lemma ElementsAreLive<K>(owned: bool, v: SetState<K>)
    requires Accounted(owned, v)
    ensures owned ==> forall k :: k in Elements(v.nodes, v.value) ==> k in v.objects
  {
    forall k | owned && k in Elements(v.nodes, v.value) ensures k in v.objects {
      var i :| 0 <= i < |v.nodes| && Elements(v.nodes, v.value)[i] == k;
      assert v.nodes[i] in v.nodes;
    }
  }

  /** A set that has just been constructed, in a heap with these cells and objects. */
  function Fresh<K>(cells: map<CellId, NodeId>, objects: set<K>): SetState<K> {
    SetState(map[], cells, objects, [], map[], 0, multiset{}, multiset{}, multiset{})
  }

  ghost predicate Call<K>(owned: bool, v: SetState<K>, op: SetOp<K>, w: SetState<K>) {
    Consistent(owned, v) && Allowed(owned, v, op) && w == After(owned, v, op)
  }

  // ----- What one call does -----

  /** The call on a plain list. */
  function OnList<K>(s: seq<K>, op: SetOp<K>): seq<K> {
    match op
    case Push(k, _) => s + [k]
    case Remove(p, _) => if p < |s| then s[..p] + s[p + 1..] else s
    case ClearAll => []
    case ReserveRoom => s
    case Reorder(arranged, _, _) => arranged
  }

  /** The objects a call hands to the set. */
  function HandedIn<K>(s: seq<K>, op: SetOp<K>): multiset<K> {
    match op
    case Push(k, _) => multiset{k}
    case Reorder(arranged, _, _) => multiset(arranged) - multiset(s)
    case _ => multiset{}
  }

  /** The objects a call deletes: the element erased, or all elements of an owning set that is cleared. */
  function Deletes<K>(owned: bool, s: seq<K>, op: SetOp<K>): multiset<K> {
    match op
    case Remove(p, destroy) => if destroy && p < |s| then multiset{s[p]} else multiset{}
    case ClearAll => if owned then multiset(s) else multiset{}
    case _ => multiset{}
  }

  /** What a call from `v` to `w` keeps and changes. In particular an object leaves the heap exactly when the call
      counts it as deleted, and that is when it should. */
  ghost predicate Faithful<K>(owned: bool, v: SetState<K>, op: SetOp<K>, w: SetState<K>)
    requires IsList(v.nodes, v.value)
  {
    var s := Elements(v.nodes, v.value);
    && Consistent(owned, w) && Foreign(w) == Foreign(v)
    && Elements(w.nodes, w.value) == OnList(s, op)
    && w.pushed == v.pushed + HandedIn(s, op)
    && w.deleted == v.deleted + Deletes(owned, s, op)
    && multiset(v.objects) == multiset(w.objects) + Deletes(owned, s, op)
  }

  lemma PushFaithful<K>(owned: bool, v: SetState<K>, k: K, c: CellId)
    requires Consistent(owned, v) && Allowed(owned, v, Push(k, c))
    ensures IsList(v.nodes, v.value) && Faithful(owned, v, Push(k, c), AfterPush(v, k, c))
  {
    hide Agree, Elements, Foreign, Accounted;
    AccountedIsList(owned, v);
    PushKeeps(owned, v, k, c);
  }

  lemma RemoveFaithful<K>(owned: bool, v: SetState<K>, p: nat, destroy: bool)
    requires Consistent(owned, v) && Allowed(owned, v, Remove(p, destroy))
    ensures v.nodes[p] in v.value && v.value[v.nodes[p]] in v.index
    ensures IsList(v.nodes, v.value) && Faithful(owned, v, Remove(p, destroy), AfterErase(v, p, destroy))
  {
    hide Agree, Elements, Foreign, Accounted, Without;
    AccountedIsList(owned, v);
    EraseKeeps(owned, v, p, destroy);
    EraseSeen(owned, v, p, destroy);
    ElementAt(v.nodes, v.value, p);
  }

  lemma ElementAt<K>(nodes: seq<NodeId>, value: map<NodeId, K>, p: nat)
    requires IsList(nodes, value) && p < |nodes|
    ensures Elements(nodes, value)[p] == value[nodes[p]]
  {
  }

  lemma ClearFaithful<K>(owned: bool, v: SetState<K>)
    requires Consistent(owned, v)
    ensures IsList(v.nodes, v.value) && Faithful(owned, v, ClearAll, AfterClear(owned, v))
  {
    hide Agree, Foreign, Accounted, Elements;
    AccountedIsList(owned, v);
    ClearKeeps(owned, v);
    ElementsAreLive(owned, v);
    ClearedElements(owned, v);
    AgreeDistinct(owned, v);
    if owned {
      SetOfDistinct(Elements(v.nodes, v.value), v.objects);
    }
  }

  lemma ClearedElements<K>(owned: bool, v: SetState<K>)
    requires IsList(v.nodes, v.value)
    ensures Elements(AfterClear(owned, v).nodes, AfterClear(owned, v).value) == []
  {
  }

  lemma AgreeDistinct<K>(owned: bool, v: SetState<K>)
    requires Consistent(owned, v)
    ensures IsList(v.nodes, v.value) && NoDuplicates(Elements(v.nodes, v.value))
  {
    ElementsNoDuplicates(v.index, v.cells, v.nodes, v.value);
  }

  /** Taking distinct members out of a set takes each of them out once. */
  lemma SetOfDistinct<K>(s: seq<K>, objects: set<K>)
    requires NoDuplicates(s) && forall k :: k in s ==> k in objects
    ensures multiset(objects) == multiset(objects - (set k | k in s)) + multiset(s)
  {
    var rest := objects - (set k | k in s);
    forall k ensures multiset(objects)[k] == (multiset(rest) + multiset(s))[k] {
      CountsAtMostOne(s, k);
      assert k in multiset(s) <==> k in s;
    }
  }

  lemma ReorderFaithful<K>(owned: bool, v: SetState<K>, arranged: seq<K>, index: map<K, CellId>,
                           cells: map<CellId, NodeId>)
    requires Consistent(owned, v) && Allowed(owned, v, Reorder(arranged, index, cells))
    ensures IsList(v.nodes, v.value)
    ensures Faithful(owned, v, Reorder(arranged, index, cells),
                     Reindexed(v.(value := Assigned(v.nodes, arranged)), index, cells))
  {
    hide Agree, Foreign, Elements, Reindexed, CellsOwned, Assigned, HandedIn, Deletes;
    AccountedIsList(owned, v);
    ConsistentOverwritten(owned, v);
    AssignedElements(v.nodes, arranged);
    var u := v.(value := Assigned(v.nodes, arranged));
    ReindexedFields(u, index, cells);
    AssignedObjects(owned, v, arranged);
    ReindexedAccounted(owned, u, index, cells);
    ReindexedLedger(owned, v, u, index, cells);
    ForeignIs(Reindexed(u, index, cells));
    ReorderLedger(owned, Elements(v.nodes, v.value), Reorder(arranged, index, cells));
    NothingMore(v.deleted);
    NothingMore(multiset(v.objects));
  }

  /** Reordering hands in what is new in the list, and deletes nothing. */
  lemma ReorderLedger<K>(owned: bool, s: seq<K>, op: SetOp<K>)
    requires op.Reorder?
    ensures HandedIn(s, op) == multiset(op.arranged) - multiset(s) && Deletes(owned, s, op) == multiset{}
  {
  }

  lemma NothingMore<K>(a: multiset<K>)
    ensures a == a + multiset{}
  {
  }

  lemma AssignedObjects<K>(owned: bool, v: SetState<K>, arranged: seq<K>)
    requires |arranged| == |v.nodes| && (owned ==> forall k :: k in arranged ==> k in v.objects)
    ensures owned ==> forall n :: n in v.nodes ==> Assigned(v.nodes, arranged)[n] in v.objects
  {
  }

  lemma ForeignIs<K>(v: SetState<K>)
    ensures Foreign(v) == v.cells - v.index.Values
  {
  }

  lemma ReindexedLedger<K>(owned: bool, v: SetState<K>, u: SetState<K>, index: map<K, CellId>,
                           cells: map<CellId, NodeId>)
    requires Accounted(owned, v) && IsList(v.nodes, u.value) && u == v.(value := u.value)
    ensures Reindexed(u, index, cells).pushed
         == v.pushed + (multiset(Elements(v.nodes, u.value)) - multiset(Elements(v.nodes, v.value)))
  {
    hide Elements, NoDuplicates;
  }

  /** Every allowed call keeps the invariant, leaves other sets' cells alone, does to the elements what it does to a
      plain list, and counts what it is handed. */
  lemma {:induction false} CallsAreFaithful<K>(owned: bool, v: SetState<K>, op: SetOp<K>)
    requires Consistent(owned, v) && Allowed(owned, v, op)
    ensures IsList(v.nodes, v.value) && Faithful(owned, v, op, After(owned, v, op))
  {
    hide Faithful, Agree, Foreign, Reindexed;
    AccountedIsList(owned, v);
    match op
    case Push(k, c) => PushFaithful(owned, v, k, c);
    case Remove(p, destroy) => RemoveFaithful(owned, v, p, destroy);
    case ClearAll => ClearFaithful(owned, v);
    case ReserveRoom => NothingFaithful(owned, v);
    case Reorder(arranged, index, cells) => ReorderFaithful(owned, v, arranged, index, cells);
  }

  lemma NothingFaithful<K>(owned: bool, v: SetState<K>)
    requires Consistent(owned, v) && IsList(v.nodes, v.value)
    ensures Faithful(owned, v, ReserveRoom, v)
  {
  }

  // ----- Runs -----

  /** `v` is the state after the calls `ops` on a fresh set. */
  ghost predicate SetRun<K(!new)>(owned: bool, start: SetState<K>, ops: seq<SetOp<K>>, v: SetState<K>) {
    if ops == [] then v == start
    else
      var op := ops[|ops| - 1];
      exists u :: SetRun(owned, start, ops[..|ops| - 1], u) && Call(owned, u, op, v)
  }

  /** The elements the calls leave in a plain list. */
  function Listing<K>(ops: seq<SetOp<K>>): seq<K> {
    if ops == [] then [] else OnList(Listing(ops[..|ops| - 1]), ops[|ops| - 1])
  }

  /** Every object the calls have handed in, as often as they have. */
  function Supplied<K>(ops: seq<SetOp<K>>): multiset<K> {
    if ops == [] then multiset{}
    else Supplied(ops[..|ops| - 1]) + HandedIn(Listing(ops[..|ops| - 1]), ops[|ops| - 1])
  }

  /** Every object the calls should have deleted. */
  function Deletions<K>(owned: bool, ops: seq<SetOp<K>>): multiset<K> {
    if ops == [] then multiset{}
    else Deletions(owned, ops[..|ops| - 1]) + Deletes(owned, Listing(ops[..|ops| - 1]), ops[|ops| - 1])
  }

  lemma {:induction false} RunIsFaithful<K(!new)>(owned: bool, cells: map<CellId, NodeId>, objects: set<K>,
                                                  ops: seq<SetOp<K>>, v: SetState<K>)
    requires SetRun(owned, Fresh(cells, objects), ops, v)
    ensures Consistent(owned, v) && Foreign(v) == cells && IsList(v.nodes, v.value)
    ensures Elements(v.nodes, v.value) == Listing(ops) && v.pushed == Supplied(ops)
    ensures v.deleted == Deletions(owned, ops) && multiset(objects) == multiset(v.objects) + Deletions(owned, ops)
  {
    hide Agree, Elements, OnList, HandedIn, NoDuplicates, Deletes;
    if ops == [] {
      FreshIsEmpty(owned, cells, objects);
    } else {
      var op, rest := ops[|ops| - 1], ops[..|ops| - 1];
      var u :| SetRun(owned, Fresh(cells, objects), rest, u) && Call(owned, u, op, v);
      RunIsFaithful(owned, cells, objects, rest, u);
      CallsAreFaithful(owned, u, op);
      AccountedIsList(owned, v);
      StillBalanced(multiset(objects), multiset(u.objects), multiset(v.objects), Deletions(owned, rest),
                    Deletes(owned, Listing(rest), op));
    }
  }

  lemma StillBalanced<K>(start: multiset<K>, before: multiset<K>, after: multiset<K>, gone: multiset<K>,
                         going: multiset<K>)
    requires start == before + gone && before == after + going
    ensures start == after + (gone + going)
  {
  }

  lemma FreshIsEmpty<K>(owned: bool, cells: map<CellId, NodeId>, objects: set<K>)
    ensures var v := Fresh(cells, objects);
      Consistent(owned, v) && Foreign(v) == cells && IsList(v.nodes, v.value) && Elements(v.nodes, v.value) == []
  {
  }

  /** Over every run: the elements in iteration order are what the same calls leave in a plain list; the index has
      one live cell for each of them and no other set's cells are touched; and every object handed in is in the
      list, was deleted by the set, or was handed back, each as often as it was handed in. The deleted ones are those
      the calls should delete, and they and no others have left the heap. */
  lemma {:induction false} RunConserves<K(!new)>(owned: bool, cells: map<CellId, NodeId>, objects: set<K>,
                                                 ops: seq<SetOp<K>>, v: SetState<K>)
    requires SetRun(owned, Fresh(cells, objects), ops, v)
    ensures Agree(v.index, v.cells, v.nodes, v.value) && Foreign(v) == cells
    ensures Elements(v.nodes, v.value) == Listing(ops)
    ensures |v.index.Values| == |v.nodes| && v.index.Values <= v.cells.Keys
    ensures Supplied(ops) == multiset(Listing(ops)) + v.deleted + v.released
    ensures v.deleted == Deletions(owned, ops) && multiset(objects) == multiset(v.objects) + Deletions(owned, ops)
    ensures !owned ==> v.deleted == multiset{} && v.objects == objects
  {
    hide SetRun, Elements, Foreign;
    RunIsFaithful(owned, cells, objects, ops, v);
    AgreeOwns(v.index, v.cells, v.nodes, v.value);
    CellsNumberElements(v.index, v.cells);
    SameObjects(objects, v.objects);
  }

  lemma SameObjects<K>(a: set<K>, b: set<K>)
    ensures multiset(a) == multiset(b) + multiset{} ==> a == b
  {
    if multiset(a) == multiset(b) + multiset{} {
      forall k ensures k in a <==> k in b {
        assert k in multiset(a) <==> k in multiset(b);
      }
    }
  }

  // ----- Runs without reordering -----

  /** The objects pushed, in order. */
  function Pushes<K>(ops: seq<SetOp<K>>): seq<K> {
    if ops == [] then []
    else
      var op := ops[|ops| - 1];
      Pushes(ops[..|ops| - 1]) + if op.Push? then [op.item] else []
  }

  /** `s` is what remains of `t` after striking out elements: it keeps their order. */
  ghost predicate RemainsOf<T>(s: seq<T>, t: seq<T>) {
    exists at: seq<nat> :: Places(s, t, at)
  }

  ghost predicate Places<T>(s: seq<T>, t: seq<T>, at: seq<nat>) {
    && |at| == |s|
    && (forall i :: 0 <= i < |s| ==> at[i] < |t| && t[at[i]] == s[i])
    && (forall i, j :: 0 <= i < j < |at| ==> at[i] < at[j])
  }

  lemma RemainsAfterPush<T>(s: seq<T>, t: seq<T>, x: T)
    requires RemainsOf(s, t)
    ensures RemainsOf(s + [x], t + [x])
  {
    var at: seq<nat> :| Places(s, t, at);
    assert Places(s + [x], t + [x], at + [|t|]);
  }

  lemma RemainsAfterStrike<T>(s: seq<T>, t: seq<T>, p: nat)
    requires RemainsOf(s, t) && p < |s|
    ensures RemainsOf(Without(s, p), t)
  {
    var at: seq<nat> :| Places(s, t, at);
    assert Places(Without(s, p), t, Without(at, p));
  }

  lemma StrikeIsWithout<T>(s: seq<T>, p: nat)
    requires p < |s|
    ensures Without(s, p) == s[..p] + s[p + 1..]
  {
  }

  lemma NothingRemains<T>(t: seq<T>)
    ensures RemainsOf([], t)
  {
    assert Places([], t, []);
  }

  /** Without reordering, iteration order is PushBack order minus removals, and what was handed in is what was
      pushed. */
  lemma {:induction false} PushOrderRemains<K>(ops: seq<SetOp<K>>)
    requires forall i :: 0 <= i < |ops| ==> !ops[i].Reorder?
    ensures RemainsOf(Listing(ops), Pushes(ops)) && Supplied(ops) == multiset(Pushes(ops))
  {
    hide RemainsOf, Without;
    if ops == [] {
      NothingRemains<K>([]);
    } else {
      var op, rest := ops[|ops| - 1], ops[..|ops| - 1];
      PushOrderRemains(rest);
      assert !op.Reorder?;
      match op
      case Push(k, _) => RemainsAfterPush(Listing(rest), Pushes(rest), k);
      case Remove(p, _) =>
        assert Pushes(ops) == Pushes(rest);
        if p < |Listing(rest)| {
          StrikeIsWithout(Listing(rest), p);
          RemainsAfterStrike(Listing(rest), Pushes(rest), p);
        }
      case ClearAll => NothingRemains(Pushes(rest)); assert Pushes(ops) == Pushes(rest);
      case ReserveRoom => assert Pushes(ops) == Pushes(rest);
    }
  }
}
