/** Any number of ordered sets in one heap, with elements moving between them: no call on one set disturbs another,
    no cell is shared or leaked, and every object handed in anywhere is accounted for. */
module OrderedSetWorlds {
  import opened LoadPolicy
  import opened OrderedSetRuns
  import opened OrderedSets
  import opened TableSteps

  /** A set and whether it owns its elements. */
  datatype Member<K> = Member(owned: bool, state: SetState<K>)

  /** The live cells, the live objects, the sets, and which of them have been destroyed. */
  datatype World<K> =
    World(cells: map<CellId, NodeId>, objects: set<K>, members: seq<Member<K>>, destroyed: set<nat>)

  /** Construction, a call on one set, move construction from a set, move assignment between two, destruction, and the
      client creating and deleting objects of its own. */
  datatype WorldOp<K> =
    | NewSet(owned: bool)
    | On(i: nat, op: SetOp<K>)
    | MoveOut(i: nat)
    | MoveInto(target: nat, source: nat)
    | Destroy(i: nat)
    | Create(item: K)
    | Dispose(item: K)

  // ----- The invariant -----

  ghost predicate SharesHeap<K>(w: World<K>, m: Member<K>) {
    m.state.cells == w.cells && m.state.objects == w.objects
  }

  ghost predicate Separate<K>(m: Member<K>, n: Member<K>) {
    Apart(m.owned && n.owned, m.state, n.state)
  }

  /** Some set's index holds the cell. */
  ghost predicate InUse<K>(members: seq<Member<K>>, c: CellId) {
    exists i :: 0 <= i < |members| && c in members[i].state.index.Values
  }

  /** Every set is consistent, no two share a cell or, if both own their elements, an element, and every live cell
      belongs to one of them; of the destroyed ones nothing is left. */
  ghost predicate WorldInvariant<K>(w: World<K>) {
    && (forall i :: 0 <= i < |w.members| ==> Whole(w, w.members[i]))
    && (forall i, j :: 0 <= i < |w.members| && 0 <= j < |w.members| && i != j ==> Separate(w.members[i], w.members[j]))
    && (forall c :: c in w.cells ==> InUse(w.members, c))
    && DestroyedAreGone(w)
  }

  /** Nothing is left of a destroyed set. */
  ghost predicate DestroyedAreGone<K>(w: World<K>) {
    forall i :: i in w.destroyed ==>
      i < |w.members| && w.members[i].state.index == map[] && w.members[i].state.nodes == []
  }

  ghost predicate Whole<K>(w: World<K>, m: Member<K>) {
    SharesHeap(w, m) && Consistent(m.owned, m.state)
  }

  // ----- Calls -----

  /** The objects a call puts into the list. */
  function Incoming<K>(op: SetOp<K>): seq<K> {
    match op
    case Push(k, _) => [k]
    case Reorder(arranged, _, _) => arranged
    case _ => []
  }

  /** What the client has to see to: the call's own conditions, never handing an object to two owning sets, move
      assignment between different sets of one type, and leaving owned objects alone. */
  ghost predicate Possible<K>(w: World<K>, op: WorldOp<K>) {
    match op
    case NewSet(_) => true
    case On(i, op) =>
      && Usable(w, i) && Allowed(w.members[i].owned, w.members[i].state, op)
      && Unclaimed(w.members, i, Incoming(op))
    case MoveOut(i) => Usable(w, i)
    case MoveInto(i, j) => Usable(w, i) && Usable(w, j) && i != j && w.members[i].owned == w.members[j].owned
    case Destroy(i) => Usable(w, i)
    case Create(o) => o !in w.objects
    case Dispose(o) => o in w.objects && forall j :: 0 <= j < |w.members| && w.members[j].owned ==>
      !Lists(w.members[j].state, o)
  }

  predicate Usable<K>(w: World<K>, i: nat) {
    i < |w.members| && i !in w.destroyed
  }

  /** None of these objects is listed by an owning set other than set `i`, if that owns its elements too. */
  ghost predicate Unclaimed<K>(members: seq<Member<K>>, i: nat, incoming: seq<K>)
    requires i < |members|
  {
    forall j, k :: 0 <= j < |members| && j != i && members[i].owned && members[j].owned && k in incoming ==>
      !Lists(members[j].state, k)
  }

  ghost predicate Lists<K>(v: SetState<K>, k: K) {
    exists n :: n in v.nodes && n in v.value && v.value[n] == k
  }

  /** The set as it is once the heap has changed around it. */
  function Seen<K>(m: Member<K>, cells: map<CellId, NodeId>, objects: set<K>): Member<K> {
    m.(state := m.state.(cells := cells, objects := objects))
  }

  /** Set `i` is now in state `u`; the others see its heap. */
  function Updated<K>(w: World<K>, i: nat, u: SetState<K>): World<K>
    requires i < |w.members|
  {
    World(u.cells, u.objects, seq(|w.members|, j requires 0 <= j < |w.members| =>
      if j == i then w.members[i].(state := u) else Seen(w.members[j], u.cells, u.objects)), w.destroyed)
  }

  /** The world after a call. */
  ghost function Later<K>(w: World<K>, op: WorldOp<K>): World<K>
    requires WorldInvariant(w) && Possible(w, op)
  {
    match op
    case NewSet(owned) => w.(members := w.members + [Member(owned, Fresh(w.cells, w.objects))])
    case On(i, op) => assert Whole(w, w.members[i]); Updated(w, i, After(w.members[i].owned, w.members[i].state, op))
    case MoveOut(i) => MovedOut(w, i)
    case MoveInto(i, j) => assert Whole(w, w.members[i]); MovedInto(w, i, j)
    case Destroy(i) => assert Whole(w, w.members[i]); Destroyed(w, i)
    case Create(o) => Outside(w, w.objects + {o})
    case Dispose(o) => Outside(w, w.objects - {o})
  }

  ghost function MovedOut<K>(w: World<K>, i: nat): World<K>
    requires i < |w.members|
  {
    var m := w.members[i];
    w.(members := w.members[i := m.(state := MovedFrom(m.state))] + [m])
  }

  ghost function MovedInto<K>(w: World<K>, i: nat, j: nat): World<K>
    requires i < |w.members| && j < |w.members| && Whole(w, w.members[i])
  {
    var m, n := w.members[i], w.members[j];
    Updated(w.(members := w.members[j := n.(state := MovedFrom(n.state))]), i, MovedOver(m.owned, m.state, n.state))
  }

  /** The destructor clears the set. */
  ghost function Destroyed<K>(w: World<K>, i: nat): World<K>
    requires i < |w.members| && Whole(w, w.members[i])
  {
    Updated(w, i, After(w.members[i].owned, w.members[i].state, ClearAll)).(destroyed := w.destroyed + {i})
  }

  function Outside<K>(w: World<K>, objects: set<K>): World<K> {
    World(w.cells, objects, seq(|w.members|, j requires 0 <= j < |w.members| => Seen(w.members[j], w.cells, objects)),
          w.destroyed)
  }

  // ----- One set changes, the others stay -----

  /** The heap of `u` still has what belongs to others than `v`: cells that are not `v`'s, and objects that `v` did not
      own and list. */
  ghost predicate Spares<K>(owned: bool, v: SetState<K>, u: SetState<K>) {
    && Foreign(u) == Foreign(v)
    && forall k :: k in v.objects && k !in u.objects ==> owned && Lists(v, k)
  }

  /** What `u` lists was in `v` or comes from `incoming`. */
  ghost predicate DrawsOn<K(!new)>(v: SetState<K>, incoming: seq<K>, u: SetState<K>) {
    forall k :: Lists(u, k) ==> Lists(v, k) || k in incoming
  }

  lemma CellsSpared<K>(v: SetState<K>, r: SetState<K>, u: SetState<K>)
    requires v.index.Values !! r.index.Values && v.cells == r.cells && Foreign(u) == Foreign(v)
    ensures forall c :: c in r.index.Values && c in r.cells ==> c in u.cells && u.cells[c] == r.cells[c]
    ensures r.index.Values <= r.cells.Keys ==> u.index.Values !! r.index.Values
  {
    forall c | c in r.index.Values && c in r.cells
      ensures c in u.cells && u.cells[c] == r.cells[c] && c !in u.index.Values
    {
      assert c in Foreign(v) && Foreign(v)[c] == v.cells[c];
      assert c in Foreign(u) && Foreign(u)[c] == u.cells[c];
    }
  }

  lemma ListsIs<K>(v: SetState<K>, n: NodeId)
    requires n in v.nodes && n in v.value
    ensures Lists(v, v.value[n])
  {
  }

  /** A set survives a call on another one. */
  lemma OthersSurvive<K(!new)>(owned: bool, v: SetState<K>, incoming: seq<K>, u: SetState<K>, n: Member<K>)
    requires Spares(owned, v, u) && DrawsOn(v, incoming, u)
    requires Consistent(n.owned, n.state) && n.state.cells == v.cells && n.state.objects == v.objects
    requires Separate(Member(owned, v), n)
    requires owned && n.owned ==> forall k :: k in incoming ==> !Lists(n.state, k)
    ensures Consistent(n.owned, Seen(n, u.cells, u.objects).state)
    ensures Separate(Member(owned, u), Seen(n, u.cells, u.objects))
    ensures Separate(Seen(n, u.cells, u.objects), Member(owned, u))
  {
    hide Agree, Elements, NoDuplicates;
    var r := n.state;
    var s := Seen(n, u.cells, u.objects).state;
    AgreeCells(r.index, r.cells, r.nodes, r.value);
    CellsSpared(v, r, u);
    AgreeFramed(r.index, r.cells, u.cells, r.nodes, r.value);
    SeparateLists(owned && n.owned, v, r);
    forall b | n.owned && b in r.nodes ensures r.value[b] in u.objects {
      ListsIs(r, b);
    }
    forall a, b | owned && n.owned && a in u.nodes && a in u.value && b in r.nodes && b in r.value
      ensures u.value[a] != r.value[b]
    {
      ListsIs(u, a);
      ListsIs(r, b);
    }
  }

  lemma SeparateLists<K(!new)>(owned: bool, v: SetState<K>, r: SetState<K>)
    requires Apart(owned, v, r)
    ensures owned ==> forall k :: Lists(v, k) ==> !Lists(r, k)
  {
  }

  lemma ListsElements<K>(v: SetState<K>, k: K)
    requires IsList(v.nodes, v.value)
    ensures Lists(v, k) <==> k in Elements(v.nodes, v.value)
  {
    if Lists(v, k) {
      var n :| n in v.nodes && n in v.value && v.value[n] == k;
      ElementOfNode(v.nodes, v.value, n);
    }
    if k in Elements(v.nodes, v.value) {
      var i :| 0 <= i < |v.nodes| && Elements(v.nodes, v.value)[i] == k;
      ListsIs(v, v.nodes[i]);
    }
  }

  lemma OnListDrawsOn<K>(s: seq<K>, op: SetOp<K>, k: K)
    requires k in OnList(s, op)
    ensures k in s || k in Incoming(op)
  {
  }

  /** A call on a set touches nothing that belongs to others. */
  lemma CallsSpare<K(!new)>(owned: bool, v: SetState<K>, op: SetOp<K>)
    requires Consistent(owned, v) && Allowed(owned, v, op)
    ensures var u := After(owned, v, op);
      Consistent(owned, u) && Spares(owned, v, u) && DrawsOn(v, Incoming(op), u)
  {
    hide Agree, Elements, Foreign, OnList, NoDuplicates, Incoming, Lists, Reindexed;
    var u := After(owned, v, op);
    CallsAreFaithful(owned, v, op);
    AccountedIsList(owned, v);
    AccountedIsList(owned, u);
    forall k | Lists(u, k) ensures Lists(v, k) || k in Incoming(op) {
      ListsElements(u, k);
      ListsElements(v, k);
      OnListDrawsOn(Elements(v.nodes, v.value), op, k);
    }
    forall k | k in v.objects && k !in u.objects ensures owned && Lists(v, k) {
      OnlyListedAreDeleted(owned, v, op, k);
    }
  }

  lemma OnlyListedAreDeleted<K>(owned: bool, v: SetState<K>, op: SetOp<K>, k: K)
    requires Consistent(owned, v) && Allowed(owned, v, op)
    ensures k in v.objects && k !in After(owned, v, op).objects ==> owned && Lists(v, k)
  {
    hide Agree, Elements, NoDuplicates;
    AccountedIsList(owned, v);
    match op
    case Push(_, _) =>
    case Remove(p, destroy) => ListsIs(v, v.nodes[p]);
    case ClearAll => ListsElements(v, k);
    case ReserveRoom =>
    case Reorder(arranged, index, cells) => ReindexedFields(v.(value := Assigned(v.nodes, arranged)), index, cells);
  }

  // ----- Every call keeps the invariant of the world -----

  lemma SeenSeparate<K>(m: Member<K>, n: Member<K>, cells: map<CellId, NodeId>, objects: set<K>)
    requires Separate(m, n)
    ensures Separate(Seen(m, cells, objects), Seen(n, cells, objects))
  {
  }

  lemma WorldIs<K>(w: World<K>, i: nat, j: nat)
    requires WorldInvariant(w) && i < |w.members| && j < |w.members|
    ensures Whole(w, w.members[i]) && (i != j ==> Separate(w.members[i], w.members[j]))
  {
  }

  lemma UpdatedKeeps<K(!new)>(w: World<K>, i: nat, incoming: seq<K>, u: SetState<K>)
    requires WorldInvariant(w) && Usable(w, i)
    requires var m := w.members[i];
      Consistent(m.owned, u) && Spares(m.owned, m.state, u) && DrawsOn(m.state, incoming, u)
    requires Unclaimed(w.members, i, incoming)
    ensures WorldInvariant(Updated(w, i, u))
  {
    hide Consistent, Separate, Spares, DrawsOn, Unclaimed, InUse;
    var x := Updated(w, i, u);
    forall j | 0 <= j < |w.members| ensures Whole(x, x.members[j]) {
      if j != i {
        UpdatedBeside(w, i, incoming, u, j);
      }
    }
    forall j, k | 0 <= j < |w.members| && 0 <= k < |w.members| && j != k
      ensures Separate(x.members[j], x.members[k])
    {
      if j == i {
        UpdatedBeside(w, i, incoming, u, k);
      } else if k == i {
        UpdatedBeside(w, i, incoming, u, j);
      } else {
        WorldIs(w, j, k);
        SeenSeparate(w.members[j], w.members[k], u.cells, u.objects);
      }
    }
    WorldIs(w, i, i);
    forall c | c in u.cells ensures InUse(x.members, c) {
      CellsStayInUse(w, i, u, c);
    }
  }

  /** Set `i` changes, set `j` sees it. */
  lemma UpdatedBeside<K(!new)>(w: World<K>, i: nat, incoming: seq<K>, u: SetState<K>, j: nat)
    requires WorldInvariant(w) && i < |w.members| && j < |w.members| && j != i
    requires var m := w.members[i];
      Consistent(m.owned, u) && Spares(m.owned, m.state, u) && DrawsOn(m.state, incoming, u)
    requires Unclaimed(w.members, i, incoming)
    ensures var x := Updated(w, i, u);
      Whole(x, x.members[j]) && Separate(x.members[i], x.members[j]) && Separate(x.members[j], x.members[i])
  {
    hide Consistent, Separate, Spares, DrawsOn, Lists;
    var m := w.members[i];
    assert m == Member(m.owned, m.state);
    WorldIs(w, i, j);
    WorldIs(w, j, i);
    OthersSurvive(m.owned, m.state, incoming, u, w.members[j]);
  }

  lemma CellsStayInUse<K>(w: World<K>, i: nat, u: SetState<K>, c: CellId)
    requires i < |w.members| && SharesHeap(w, w.members[i]) && Spares(w.members[i].owned, w.members[i].state, u)
    requires (forall d :: d in w.cells ==> InUse(w.members, d)) && c in u.cells
    ensures InUse(Updated(w, i, u).members, c)
  {
    var v, x := w.members[i].state, Updated(w, i, u);
    if c in u.index.Values {
      assert c in x.members[i].state.index.Values;
    } else {
      assert c in Foreign(u) && c in Foreign(v);
      var j :| 0 <= j < |w.members| && c in w.members[j].state.index.Values;
      assert c in x.members[j].state.index.Values;
    }
  }

  lemma OnKeeps<K(!new)>(w: World<K>, i: nat, op: SetOp<K>)
    requires WorldInvariant(w) && Possible(w, On(i, op))
    ensures WorldInvariant(Later(w, On(i, op)))
  {
    hide Consistent, Allowed, Spares, DrawsOn, Separate, Lists, InUse, After;
    WorldIs(w, i, i);
    CallsSpare(w.members[i].owned, w.members[i].state, op);
    UpdatedKeeps(w, i, Incoming(op), After(w.members[i].owned, w.members[i].state, op));
  }

  lemma DestroyKeeps<K(!new)>(w: World<K>, i: nat)
    requires WorldInvariant(w) && Usable(w, i)
    ensures WorldInvariant(Destroyed(w, i))
  {
    hide Consistent, Spares, DrawsOn, Separate, Lists, InUse;
    WorldIs(w, i, i);
    var m := w.members[i];
    CallsSpare(m.owned, m.state, ClearAll);
    ConsistentIsList(m.owned, m.state);
    UpdatedKeeps(w, i, [], After(m.owned, m.state, ClearAll));
    StillSame(Updated(w, i, After(m.owned, m.state, ClearAll)), Destroyed(w, i));
  }

  lemma StillSame<K>(w: World<K>, x: World<K>)
    requires WorldInvariant(w) && x == w.(destroyed := x.destroyed) && DestroyedAreGone(x)
    ensures WorldInvariant(x)
  {
    hide Consistent, Separate, InUse;
    forall i | 0 <= i < |x.members| ensures Whole(x, x.members[i]) {
      assert Whole(w, w.members[i]);
    }
  }

  lemma EmptySeparate<K>(m: Member<K>, n: Member<K>)
    requires m.state.index == map[] && m.state.nodes == []
    ensures Separate(m, n) && Separate(n, m)
  {
  }

  lemma SeparateSymmetric<K>(m: Member<K>, n: Member<K>)
    requires Separate(m, n)
    ensures Separate(n, m)
  {
  }

  lemma NewSetKeeps<K>(w: World<K>, owned: bool)
    requires WorldInvariant(w)
    ensures WorldInvariant(Later(w, NewSet(owned)))
  {
    hide Consistent, Separate;
    var fresh_, x := Member(owned, Fresh(w.cells, w.objects)), Later(w, NewSet(owned));
    FreshIsEmpty(owned, w.cells, w.objects);
    forall j | 0 <= j < |w.members| ensures Separate(fresh_, w.members[j]) && Separate(w.members[j], fresh_) {
      EmptySeparate(fresh_, w.members[j]);
    }
    forall j | 0 <= j < |w.members| ensures Whole(x, x.members[j]) {
      assert Whole(w, w.members[j]);
    }
    forall c | c in w.cells ensures InUse(x.members, c) {
      var i :| 0 <= i < |w.members| && c in w.members[i].state.index.Values;
      assert c in x.members[i].state.index.Values;
    }
  }

  lemma MoveOutKeeps<K>(w: World<K>, i: nat)
    requires WorldInvariant(w) && Usable(w, i)
    ensures WorldInvariant(MovedOut(w, i))
  {
    hide Consistent, Separate;
    var m, x, n := w.members[i], MovedOut(w, i), |w.members|;
    var emptied := x.members[i];
    MovedFromConsistent(m.owned, m.state);
    WorldIs(w, i, i);
    forall j | 0 <= j <= n ensures Whole(x, x.members[j]) {
      if j < n {
        WorldIs(w, j, j);
      }
    }
    forall j, k | 0 <= j <= n && 0 <= k <= n && j != k ensures Separate(x.members[j], x.members[k]) {
      if j == i {
        EmptySeparate(emptied, x.members[k]);
      } else if k == i {
        EmptySeparate(emptied, x.members[j]);
      } else {
        WorldIs(w, if j == n then i else j, if k == n then i else k);
      }
    }
    forall c | c in w.cells ensures InUse(x.members, c) {
      var j :| 0 <= j < n && c in w.members[j].state.index.Values;
      assert c in x.members[if j == i then n else j].state.index.Values;
    }
  }

  lemma OutsideKeeps<K>(w: World<K>, objects: set<K>)
    requires WorldInvariant(w)
    requires forall j, k :: 0 <= j < |w.members| && w.members[j].owned && k in w.objects && k !in objects ==>
      !Lists(w.members[j].state, k)
    ensures WorldInvariant(Outside(w, objects))
  {
    hide Consistent, Separate;
    var x := Outside(w, objects);
    forall j | 0 <= j < |w.members| ensures Whole(x, x.members[j]) {
      WorldIs(w, j, j);
      ObjectsChanged(w.members[j].owned, w.members[j].state, objects);
    }
    forall j, k | 0 <= j < |w.members| && 0 <= k < |w.members| && j != k
      ensures Separate(x.members[j], x.members[k])
    {
      WorldIs(w, j, k);
      SeenSeparate(w.members[j], w.members[k], w.cells, objects);
    }
    forall c | c in w.cells ensures InUse(x.members, c) {
      var i :| 0 <= i < |w.members| && c in w.members[i].state.index.Values;
      assert c in x.members[i].state.index.Values;
    }
  }

  lemma ObjectsChanged<K>(owned: bool, v: SetState<K>, objects: set<K>)
    requires Consistent(owned, v)
    requires owned ==> forall k :: k in v.objects && k !in objects ==> !Lists(v, k)
    ensures Consistent(owned, v.(objects := objects))
  {
    hide Agree, Elements, NoDuplicates;
    forall n | owned && n in v.nodes ensures v.value[n] in objects {
      ListsIs(v, n);
    }
  }

  /** Clearing the target and taking over the source's content, seen by a third set. */
  lemma ThirdSurvives<K(!new)>(m: Member<K>, n: Member<K>, p: Member<K>)
    requires Consistent(m.owned, m.state) && Consistent(n.owned, n.state) && Consistent(p.owned, p.state)
    requires m.owned == n.owned && Separate(m, p) && Separate(n, p)
    requires m.state.cells == n.state.cells == p.state.cells && m.state.objects == n.state.objects == p.state.objects
    ensures IsList(m.state.nodes, m.state.value)
    ensures var u := MovedOver(m.owned, m.state, n.state);
      && Consistent(p.owned, Seen(p, u.cells, u.objects).state)
      && Separate(Member(m.owned, u), Seen(p, u.cells, u.objects))
      && Separate(Seen(p, u.cells, u.objects), Member(m.owned, u))
  {
    hide Agree, Elements, NoDuplicates, Accounted, Spares, DrawsOn, Separate;
    AccountedIsList(m.owned, m.state);
    CallsSpare(m.owned, m.state, ClearAll);
    var c := AfterClear(m.owned, m.state);
    assert m == Member(m.owned, m.state);
    OthersSurvive(m.owned, m.state, [], c, p);
    var u := MovedOver(m.owned, m.state, n.state);
    TakenOverSeparate(n, p, u);
    SeparateSymmetric(Member(m.owned, u), Seen(p, u.cells, u.objects));
  }

  lemma TakenOverSeparate<K>(n: Member<K>, p: Member<K>, u: SetState<K>)
    requires Separate(n, p) && u.index == n.state.index && u.nodes == n.state.nodes && u.value == n.state.value
    ensures Separate(Member(n.owned, u), Seen(p, u.cells, u.objects))
  {
  }

  lemma MoveIntoKeeps<K(!new)>(w: World<K>, i: nat, j: nat)
    requires WorldInvariant(w) && Possible(w, MoveInto(i, j))
    ensures WorldInvariant(MovedInto(w, i, j))
  {
    hide Consistent, Separate, MovedOver, InUse;
    var m, n, x := w.members[i], w.members[j], MovedInto(w, i, j);
    WorldIs(w, i, j);
    WorldIs(w, j, i);
    ConsistentIsList(m.owned, m.state);
    var u := MovedOver(m.owned, m.state, n.state);
    SeparateIsApart(m, n);
    MovedOverConsistent(m.owned, m.state, n.state);
    MovedFromConsistent(n.owned, n.state.(cells := u.cells, objects := u.objects));
    forall k | 0 <= k < |w.members| ensures Whole(x, x.members[k]) {
      if k != i && k != j {
        WorldIs(w, i, k);
        WorldIs(w, j, k);
        WorldIs(w, k, k);
        ThirdSurvives(m, n, w.members[k]);
      }
    }
    forall k, l | 0 <= k < |w.members| && 0 <= l < |w.members| && k != l
      ensures Separate(x.members[k], x.members[l])
    {
      if k == j {
        EmptySeparate(x.members[j], x.members[l]);
      } else if l == j {
        EmptySeparate(x.members[j], x.members[k]);
      } else if k != i && l != i {
        WorldIs(w, k, l);
        SeenSeparate(w.members[k], w.members[l], u.cells, u.objects);
      } else {
        var p := if k == i then l else k;
        WorldIs(w, i, p);
        WorldIs(w, j, p);
        WorldIs(w, p, p);
        ThirdSurvives(m, n, w.members[p]);
        assert x.members[i] == Member(m.owned, u) && x.members[p] == Seen(w.members[p], u.cells, u.objects);
      }
    }
    forall c | c in x.cells ensures InUse(x.members, c) {
      MovedCellsStayInUse(w, i, j, c);
    }
  }

  lemma MovedCellsStayInUse<K>(w: World<K>, i: nat, j: nat, c: CellId)
    requires i < |w.members| && j < |w.members| && i != j && Whole(w, w.members[i]) && Whole(w, w.members[j])
    requires (forall d :: d in w.cells ==> InUse(w.members, d)) && c in MovedInto(w, i, j).cells
    ensures InUse(MovedInto(w, i, j).members, c)
  {
    hide Consistent, MovedOver;
    var m, n, x := w.members[i], w.members[j], MovedInto(w, i, j);
    ConsistentIsList(m.owned, m.state);
    MovedOverFields(m.owned, m.state, n.state);
    var k :| 0 <= k < |w.members| && c in w.members[k].state.index.Values;
    assert c in x.members[if k == j then i else k].state.index.Values;
  }

  lemma SeparateIsApart<K>(m: Member<K>, n: Member<K>)
    requires Separate(m, n) && m.owned == n.owned
    ensures Apart(m.owned, m.state, n.state)
  {
  }

  lemma MovedOverFields<K>(owned: bool, v: SetState<K>, r: SetState<K>)
    requires IsList(v.nodes, v.value)
    ensures var u := MovedOver(owned, v, r);
      && u.index == r.index && u.nodes == r.nodes && u.value == r.value && u.cells == v.cells - v.index.Values
      && u.pushed == v.pushed + r.pushed
  {
  }

  /** No call on any set, no move and nothing the client does outside the sets breaks the invariant of the world. */
  lemma {:induction false} WorldKeeps<K(!new)>(w: World<K>, op: WorldOp<K>)
    requires WorldInvariant(w) && Possible(w, op)
    ensures WorldInvariant(Later(w, op))
  {
    hide WorldInvariant;
    match op
    case NewSet(owned) => NewSetKeeps(w, owned);
    case On(i, op) => OnKeeps(w, i, op);
    case MoveOut(i) => MoveOutKeeps(w, i);
    case MoveInto(i, j) => MoveIntoKeeps(w, i, j);
    case Destroy(i) => DestroyKeeps(w, i);
    case Create(o) => OutsideKeeps(w, w.objects + {o});
    case Dispose(o) => OutsideKeeps(w, w.objects - {o});
  }

  // ----- The same calls on plain lists -----

  function OnLists<K>(lists: seq<seq<K>>, op: WorldOp<K>): seq<seq<K>> {
    match op
    case NewSet(_) => lists + [[]]
    case On(i, op) => if i < |lists| then lists[i := OnList(lists[i], op)] else lists
    case MoveOut(i) => if i < |lists| then lists[i := []] + [lists[i]] else lists
    case Destroy(i) => if i < |lists| then lists[i := []] else lists
    case MoveInto(i, j) => if i < |lists| && j < |lists| && i != j then lists[i := lists[j]][j := []] else lists
    case _ => lists
  }

  function Supply<K>(lists: seq<seq<K>>, op: WorldOp<K>): multiset<K> {
    if op.On? && op.i < |lists| then HandedIn(lists[op.i], op.op) else multiset{}
  }

  /** Which sets own their elements. */
  function Owners<K>(owners: seq<bool>, op: WorldOp<K>): seq<bool> {
    match op
    case NewSet(owned) => owners + [owned]
    case MoveOut(i) => if i < |owners| then owners + [owners[i]] else owners
    case _ => owners
  }

  /** The objects a call makes the sets delete: those of a call on one set, and everything in an owning set that is the
      target of a move assignment or is destroyed. */
  function Doomed<K>(owners: seq<bool>, lists: seq<seq<K>>, op: WorldOp<K>): multiset<K>
    requires |owners| == |lists|
  {
    match op
    case On(i, op) => if i < |lists| then Deletes(owners[i], lists[i], op) else multiset{}
    case MoveInto(i, j) => if i < |lists| && j < |lists| && i != j && owners[i] then multiset(lists[i]) else multiset{}
    case Destroy(i) => if i < |lists| && owners[i] then multiset(lists[i]) else multiset{}
    case _ => multiset{}
  }

  /** The objects the client creates, and those it deletes itself. */
  function Created<K>(op: WorldOp<K>): multiset<K> {
    if op.Create? then multiset{op.item} else multiset{}
  }

  function Disposed<K>(op: WorldOp<K>): multiset<K> {
    if op.Dispose? then multiset{op.item} else multiset{}
  }

  /** The sets hold exactly these lists. */
  ghost predicate Shows<K>(members: seq<Member<K>>, lists: seq<seq<K>>) {
    |members| == |lists| && forall i :: 0 <= i < |lists| ==> ShowsList(members[i].state, lists[i])
  }

  ghost predicate ShowsList<K>(v: SetState<K>, s: seq<K>) {
    IsList(v.nodes, v.value) && Elements(v.nodes, v.value) == s
  }

  function Total<K>(s: seq<multiset<K>>): multiset<K> {
    if s == [] then multiset{} else Total(s[..|s| - 1]) + s[|s| - 1]
  }

  function Pushed<K>(members: seq<Member<K>>): (s: seq<multiset<K>>)
    ensures |s| == |members|
  {
    seq(|members|, i requires 0 <= i < |members| => members[i].state.pushed)
  }

  function Deleted<K>(members: seq<Member<K>>): (s: seq<multiset<K>>)
    ensures |s| == |members|
  {
    seq(|members|, i requires 0 <= i < |members| => members[i].state.deleted)
  }

  function Released<K>(members: seq<Member<K>>): (s: seq<multiset<K>>)
    ensures |s| == |members|
  {
    seq(|members|, i requires 0 <= i < |members| => members[i].state.released)
  }

  function Listed<K>(lists: seq<seq<K>>): (s: seq<multiset<K>>)
    ensures |s| == |lists|
  {
    seq(|lists|, i requires 0 <= i < |lists| => multiset(lists[i]))
  }

  lemma AddToBoth<K>(a: multiset<K>, b: multiset<K>, c: multiset<K>, d: multiset<K>, z: multiset<K>)
    requires a + b == c + d
    ensures a + z + b == c + z + d
  {
    forall x ensures (a + z + b)[x] == (c + z + d)[x] {
      assert (a + b)[x] == (c + d)[x];
    }
  }

  lemma {:induction false} TotalAfterUpdate<K>(s: seq<multiset<K>>, i: nat, x: multiset<K>)
    requires i < |s|
    ensures Total(s[i := x]) + s[i] == Total(s) + x
  {
    var n := |s| - 1;
    if i == n {
      assert s[i := x][..n] == s[..n];
    } else {
      TotalAfterUpdate(s[..n], i, x);
      assert s[i := x][..n] == s[..n][i := x];
      AddToBoth(Total(s[..n][i := x]), s[i], Total(s[..n]), x, s[n]);
    }
  }

  lemma TotalAfterAppend<K>(s: seq<multiset<K>>, x: multiset<K>)
    ensures Total(s + [x]) == Total(s) + x
  {
    assert (s + [x])[..|s|] == s;
  }

  lemma {:induction false} TotalSplits<K>(a: seq<multiset<K>>, b: seq<multiset<K>>, c: seq<multiset<K>>,
                                          d: seq<multiset<K>>)
    requires |a| == |b| == |c| == |d|
    requires forall i :: 0 <= i < |a| ==> a[i] == b[i] + c[i] + d[i]
    ensures Total(a) == Total(b) + Total(c) + Total(d)
  {
    if a == [] {
      assert b == [] && c == [] && d == [];
    } else {
      var n := |a| - 1;
      TotalSplits(a[..n], b[..n], c[..n], d[..n]);
      SumsRegroup(Total(b[..n]), Total(c[..n]), Total(d[..n]), b[n], c[n], d[n]);
    }
  }

  lemma Cancel<K>(a: multiset<K>, b: multiset<K>, c: multiset<K>)
    requires a + c == b + c
    ensures a == b
  {
    forall x ensures a[x] == b[x] {
      assert (a + c)[x] == (b + c)[x];
    }
  }

  lemma SumsRegroup<K>(a: multiset<K>, b: multiset<K>, c: multiset<K>, x: multiset<K>, y: multiset<K>, z: multiset<K>)
    ensures (a + b + c) + (x + y + z) == (a + x) + (b + y) + (c + z)
  {
  }

  /** Taking `b` away in one place and adding it in another changes no total. */
  lemma MovedTotal<K>(before: multiset<K>, between: multiset<K>, after: multiset<K>, a: multiset<K>, b: multiset<K>)
    requires between + b == before && after + a == between + (a + b)
    ensures after == before
  {
    forall x ensures after[x] == before[x] {
      assert (between + b)[x] == before[x] && (after + a)[x] == (between + (a + b))[x];
    }
  }

  // ----- What one call does to the lists and to the ledger -----

  ghost predicate StepsTo<K>(w: World<K>, lists: seq<seq<K>>, op: WorldOp<K>, x: World<K>) {
    && Shows(x.members, OnLists(lists, op))
    && Total(Pushed(x.members)) == Total(Pushed(w.members)) + Supply(lists, op)
  }

  function OwnersOf<K>(members: seq<Member<K>>): (s: seq<bool>)
    ensures |s| == |members|
  {
    seq(|members|, i requires 0 <= i < |members| => members[i].owned)
  }

  /** An object leaves the heap exactly when a set counts it as deleted or the client deletes it, and a set deletes
      exactly what it should. */
  ghost predicate Deleting<K>(w: World<K>, lists: seq<seq<K>>, op: WorldOp<K>, x: World<K>)
    requires |w.members| == |lists|
  {
    var doomed := Doomed(OwnersOf(w.members), lists, op);
    && OwnersOf(x.members) == Owners(OwnersOf(w.members), op)
    && Total(Deleted(x.members)) == Total(Deleted(w.members)) + doomed
    && multiset(w.objects) + Created(op) == multiset(x.objects) + doomed + Disposed(op)
  }

  /** A set changes and counts `more` as deleted. */
  lemma UpdatedDeleted<K>(w: World<K>, i: nat, u: SetState<K>, more: multiset<K>)
    requires i < |w.members| && u.deleted == w.members[i].state.deleted + more
    ensures Total(Deleted(Updated(w, i, u).members)) == Total(Deleted(w.members)) + more
    ensures OwnersOf(Updated(w, i, u).members) == OwnersOf(w.members)
  {
    hide Total;
    var p := Deleted(w.members);
    var q := Deleted(Updated(w, i, u).members);
    assert q == p[i := u.deleted];
    TotalAfterUpdate(p, i, u.deleted);
    assert Total(q) + p[i] == Total(p) + more + p[i];
    Cancel(Total(q), Total(p) + more, p[i]);
  }

  lemma OnDeletes<K(!new)>(w: World<K>, lists: seq<seq<K>>, i: nat, op: SetOp<K>)
    requires WorldInvariant(w) && Possible(w, On(i, op)) && Shows(w.members, lists)
    ensures Deleting(w, lists, On(i, op), Later(w, On(i, op)))
  {
    hide Consistent, Allowed, Separate, InUse, After, OnList, HandedIn, Deletes, Elements, IsList, Unclaimed, Updated,
      Total, Deleted;
    WorldIs(w, i, i);
    var m := w.members[i];
    CallsAreFaithful(m.owned, m.state, op);
    UpdatedDeleted(w, i, After(m.owned, m.state, op), Deletes(m.owned, lists[i], op));
    UpdatedHeap(w, i, After(m.owned, m.state, op));
  }

  lemma UpdatedHeap<K>(w: World<K>, i: nat, u: SetState<K>)
    requires i < |w.members|
    ensures Updated(w, i, u).objects == u.objects
  {
  }

  lemma DestroyDeletes<K(!new)>(w: World<K>, lists: seq<seq<K>>, i: nat)
    requires i < |w.members| && Whole(w, w.members[i]) && Shows(w.members, lists)
    ensures Deleting(w, lists, Destroy(i), Destroyed(w, i))
  {
    hide Consistent, After, Elements, IsList, Updated, Total, Deleted;
    var m := w.members[i];
    CallsAreFaithful(m.owned, m.state, ClearAll);
    var u := After(m.owned, m.state, ClearAll);
    UpdatedDeleted(w, i, u, Deletes(m.owned, lists[i], ClearAll));
    UpdatedHeap(w, i, u);
  }

  lemma MoveOutDeletes<K>(w: World<K>, lists: seq<seq<K>>, i: nat)
    requires i < |w.members| == |lists|
    ensures Deleting(w, lists, MoveOut(i), MovedOut(w, i))
  {
    hide Total;
    var p := Deleted(w.members);
    assert Deleted(MovedOut(w, i).members) == p[i := multiset{}] + [p[i]];
    TotalAfterUpdate(p, i, multiset{});
    TotalAfterAppend(p[i := multiset{}], p[i]);
    var op: WorldOp<K> := MoveOut(i);
    assert OwnersOf(MovedOut(w, i).members) == Owners(OwnersOf(w.members), op);
  }

  lemma MoveIntoDeletes<K(!new)>(w: World<K>, lists: seq<seq<K>>, i: nat, j: nat)
    requires i < |w.members| && j < |w.members| && i != j && Whole(w, w.members[i]) && Shows(w.members, lists)
    ensures Deleting(w, lists, MoveInto(i, j), MovedInto(w, i, j))
  {
    hide Consistent, Elements, IsList, Total, Deleted, Updated, MovedOver, MovedFrom;
    var m, n := w.members[i], w.members[j];
    CallsAreFaithful(m.owned, m.state, ClearAll);
    var doomed := Deletes(m.owned, lists[i], ClearAll);
    ConsistentIsList(m.owned, m.state);
    MovedOverDeletes(m.owned, m.state, n.state);
    var u := MovedOver(m.owned, m.state, n.state);
    var between := w.(members := w.members[j := n.(state := MovedFrom(n.state))]);
    EmptiedDeleted(w, j);
    MovedOverTotal(between, i, u, n.state.deleted, doomed);
    Reassociate3(Total(Deleted(between.members)), n.state.deleted, doomed);
    UpdatedHeap(between, i, u);
  }

  lemma MovedOverDeletes<K>(owned: bool, v: SetState<K>, r: SetState<K>)
    requires IsList(v.nodes, v.value)
    ensures var u := MovedOver(owned, v, r);
      u.deleted == AfterClear(owned, v).deleted + r.deleted && u.objects == AfterClear(owned, v).objects
  {
  }

  lemma EmptiedDeleted<K>(w: World<K>, j: nat)
    requires j < |w.members|
    ensures var n := w.members[j];
      var between := w.members[j := n.(state := MovedFrom(n.state))];
      Total(Deleted(between)) + n.state.deleted == Total(Deleted(w.members)) && OwnersOf(between) == OwnersOf(w.members)
  {
    hide Total;
    var n := w.members[j];
    var between := w.members[j := n.(state := MovedFrom(n.state))];
    assert Deleted(between) == Deleted(w.members)[j := multiset{}];
    TotalAfterUpdate(Deleted(w.members), j, multiset{});
  }

  lemma MovedOverTotal<K>(w: World<K>, i: nat, u: SetState<K>, taken: multiset<K>, doomed: multiset<K>)
    requires i < |w.members| && u.deleted == w.members[i].state.deleted + doomed + taken
    ensures Total(Deleted(Updated(w, i, u).members)) == Total(Deleted(w.members)) + (doomed + taken)
    ensures OwnersOf(Updated(w, i, u).members) == OwnersOf(w.members)
  {
    hide Total, Updated, Deleted;
    UpdatedDeleted(w, i, u, doomed + taken);
  }

  lemma Reassociate3<K>(a: multiset<K>, b: multiset<K>, c: multiset<K>)
    ensures a + (c + b) == (a + b) + c
  {
  }

  lemma NewSetDeletes<K>(w: World<K>, lists: seq<seq<K>>, owned: bool)
    requires WorldInvariant(w) && |w.members| == |lists|
    ensures Deleting(w, lists, NewSet(owned), Later(w, NewSet(owned)))
  {
    hide WorldInvariant, Total;
    var x := Later(w, NewSet(owned));
    assert Deleted(x.members) == Deleted(w.members) + [multiset{}];
    TotalAfterAppend(Deleted(w.members), multiset{});
    assert OwnersOf(x.members) == OwnersOf(w.members) + [owned];
  }

  lemma OutsideDeletes<K>(w: World<K>, lists: seq<seq<K>>, objects: set<K>, op: WorldOp<K>)
    requires |w.members| == |lists|
    requires (op.Create? && op.item !in w.objects && objects == w.objects + {op.item})
          || (op.Dispose? && op.item in w.objects && objects == w.objects - {op.item})
    ensures Deleting(w, lists, op, Outside(w, objects))
  {
    var x := Outside(w, objects);
    assert Deleted(x.members) == Deleted(w.members) && OwnersOf(x.members) == OwnersOf(w.members);
  }

  lemma LaterDeletes<K(!new)>(w: World<K>, lists: seq<seq<K>>, op: WorldOp<K>)
    requires WorldInvariant(w) && Possible(w, op) && Shows(w.members, lists)
    ensures Deleting(w, lists, op, Later(w, op))
  {
    hide WorldInvariant, Deleting, ShowsList;
    match op
    case NewSet(owned) => NewSetDeletes(w, lists, owned);
    case On(i, op) => OnDeletes(w, lists, i, op);
    case MoveOut(i) => MoveOutDeletes(w, lists, i);
    case MoveInto(i, j) => WorldIs(w, i, i); MoveIntoDeletes(w, lists, i, j);
    case Destroy(i) => WorldIs(w, i, i); DestroyDeletes(w, lists, i);
    case Create(o) => OutsideDeletes(w, lists, w.objects + {o}, op);
    case Dispose(o) => OutsideDeletes(w, lists, w.objects - {o}, op);
  }

  lemma OnShows<K(!new)>(w: World<K>, lists: seq<seq<K>>, i: nat, op: SetOp<K>)
    requires WorldInvariant(w) && Possible(w, On(i, op)) && Shows(w.members, lists)
    ensures StepsTo(w, lists, On(i, op), Later(w, On(i, op)))
  {
    hide Consistent, Allowed, Separate, InUse, After, OnList, HandedIn, Elements, IsList, Unclaimed, Updated, Total,
      Pushed;
    WorldIs(w, i, i);
    var m := w.members[i];
    CallsAreFaithful(m.owned, m.state, op);
    var u := After(m.owned, m.state, op);
    ConsistentIsList(m.owned, u);
    UpdatedShows(w, lists, i, u, OnList(lists[i], op));
    UpdatedPushed(w, i, u, HandedIn(lists[i], op));
  }

  lemma UpdatedShows<K>(w: World<K>, lists: seq<seq<K>>, i: nat, u: SetState<K>, s: seq<K>)
    requires i < |w.members| && Shows(w.members, lists) && ShowsList(u, s)
    ensures Shows(Updated(w, i, u).members, lists[i := s])
  {
    hide Elements, IsList;
  }

  lemma UpdatedPushed<K>(w: World<K>, i: nat, u: SetState<K>, more: multiset<K>)
    requires i < |w.members| && u.pushed == w.members[i].state.pushed + more
    ensures Total(Pushed(Updated(w, i, u).members)) == Total(Pushed(w.members)) + more
  {
    hide Total;
    var p := Pushed(w.members);
    var q := Pushed(Updated(w, i, u).members);
    assert q == p[i := u.pushed];
    TotalAfterUpdate(p, i, u.pushed);
    assert Total(q) + p[i] == Total(p) + more + p[i];
    Cancel(Total(q), Total(p) + more, p[i]);
  }

  lemma NewSetShows<K>(w: World<K>, lists: seq<seq<K>>, owned: bool)
    requires WorldInvariant(w) && Shows(w.members, lists)
    ensures StepsTo(w, lists, NewSet(owned), Later(w, NewSet(owned)))
  {
    hide WorldInvariant, Elements, Total, Pushed;
    FreshShows(w.cells, w.objects);
    MemberAdded(w.members, Member(owned, Fresh(w.cells, w.objects)));
  }

  lemma FreshShows<K>(cells: map<CellId, NodeId>, objects: set<K>)
    ensures ShowsList(Fresh(cells, objects), [])
  {
  }

  lemma MemberAdded<K>(members: seq<Member<K>>, m: Member<K>)
    ensures Total(Pushed(members + [m])) == Total(Pushed(members)) + m.state.pushed
  {
    hide Total;
    assert Pushed(members + [m]) == Pushed(members) + [m.state.pushed];
    TotalAfterAppend(Pushed(members), m.state.pushed);
  }

  lemma DestroyShows<K>(w: World<K>, lists: seq<seq<K>>, i: nat)
    requires i < |w.members| && Whole(w, w.members[i]) && Shows(w.members, lists)
    ensures StepsTo(w, lists, Destroy(i), Destroyed(w, i))
  {
    hide Consistent, Elements, Updated, Total, Pushed, ShowsList;
    var m := w.members[i];
    ConsistentIsList(m.owned, m.state);
    ClearedShows(m.owned, m.state);
    var u := After(m.owned, m.state, ClearAll);
    UpdatedShows(w, lists, i, u, []);
    UpdatedPushed(w, i, u, multiset{});
  }

  lemma ClearedShows<K>(owned: bool, v: SetState<K>)
    requires IsList(v.nodes, v.value)
    ensures ShowsList(AfterClear(owned, v), []) && AfterClear(owned, v).pushed == v.pushed
  {
  }

  lemma MoveOutShows<K>(w: World<K>, lists: seq<seq<K>>, i: nat)
    requires i < |w.members| && Shows(w.members, lists)
    ensures StepsTo(w, lists, MoveOut(i), MovedOut(w, i))
  {
    hide Elements, ShowsList, Total, Pushed;
    MovedFromShows(w.members[i].state);
    MoveOutPushed(w, i);
  }

  lemma MoveOutPushed<K>(w: World<K>, i: nat)
    requires i < |w.members|
    ensures Total(Pushed(MovedOut(w, i).members)) == Total(Pushed(w.members))
  {
    hide Total;
    var p := Pushed(w.members);
    assert Pushed(MovedOut(w, i).members) == p[i := multiset{}] + [p[i]];
    TotalAfterUpdate(p, i, multiset{});
    TotalAfterAppend(p[i := multiset{}], p[i]);
  }

  lemma MovedFromShows<K>(v: SetState<K>)
    ensures ShowsList(MovedFrom(v), [])
  {
  }

  lemma MoveIntoShows<K>(w: World<K>, lists: seq<seq<K>>, i: nat, j: nat)
    requires i < |w.members| && j < |w.members| && i != j && Whole(w, w.members[i]) && Shows(w.members, lists)
    ensures StepsTo(w, lists, MoveInto(i, j), MovedInto(w, i, j))
  {
    hide Elements, Consistent, MovedOver, MovedFrom, Total, Pushed;
    var m, n := w.members[i], w.members[j];
    ConsistentIsList(m.owned, m.state);
    MovedOverFields(m.owned, m.state, n.state);
    MovedFromShows(n.state);
    MoveIntoPushed(w, i, j);
  }

  lemma MoveIntoPushed<K>(w: World<K>, i: nat, j: nat)
    requires i < |w.members| && j < |w.members| && i != j && Whole(w, w.members[i])
    ensures Total(Pushed(MovedInto(w, i, j).members)) == Total(Pushed(w.members))
  {
    hide Total, Consistent, MovedOver;
    var m, n, x := w.members[i], w.members[j], MovedInto(w, i, j);
    ConsistentIsList(m.owned, m.state);
    MovedOverFields(m.owned, m.state, n.state);
    var p := Pushed(w.members);
    var q := p[j := multiset{}];
    assert Pushed(x.members) == q[i := p[i] + p[j]];
    TotalAfterUpdate(p, j, multiset{});
    TotalAfterUpdate(q, i, p[i] + p[j]);
    MovedTotal(Total(p), Total(q), Total(Pushed(x.members)), p[i], p[j]);
  }

  lemma OutsideShows<K>(w: World<K>, lists: seq<seq<K>>, objects: set<K>, op: WorldOp<K>)
    requires Shows(w.members, lists) && (op.Create? || op.Dispose?)
    ensures StepsTo(w, lists, op, Outside(w, objects))
  {
    hide Elements;
    assert Pushed(Outside(w, objects).members) == Pushed(w.members);
  }

  lemma LaterShows<K(!new)>(w: World<K>, lists: seq<seq<K>>, op: WorldOp<K>)
    requires WorldInvariant(w) && Possible(w, op) && Shows(w.members, lists)
    ensures StepsTo(w, lists, op, Later(w, op))
  {
    hide WorldInvariant, Shows, StepsTo;
    match op
    case NewSet(owned) => NewSetShows(w, lists, owned);
    case On(i, op) => OnShows(w, lists, i, op);
    case MoveOut(i) => MoveOutShows(w, lists, i);
    case MoveInto(i, j) => WorldIs(w, i, i); MoveIntoShows(w, lists, i, j);
    case Destroy(i) => WorldIs(w, i, i); DestroyShows(w, lists, i);
    case Create(o) => OutsideShows(w, lists, w.objects + {o}, op);
    case Dispose(o) => OutsideShows(w, lists, w.objects - {o}, op);
  }

  // ----- Runs -----

  ghost predicate WorldCall<K>(w: World<K>, op: WorldOp<K>, x: World<K>) {
    WorldInvariant(w) && Possible(w, op) && x == Later(w, op)
  }

  /** `w` is the world after the calls `ops`, starting with some objects and no set. */
  ghost predicate WorldRun<K(!new)>(objects: set<K>, ops: seq<WorldOp<K>>, w: World<K>) {
    if ops == [] then w == World(map[], objects, [], {})
    else
      var op := ops[|ops| - 1];
      exists u :: WorldRun(objects, ops[..|ops| - 1], u) && WorldCall(u, op, w)
  }

  /** What the same calls leave in plain lists. */
  function Listings<K>(ops: seq<WorldOp<K>>): seq<seq<K>> {
    if ops == [] then [] else OnLists(Listings(ops[..|ops| - 1]), ops[|ops| - 1])
  }

  /** Every object handed to any set, as often as it was. */
  function Supplies<K>(ops: seq<WorldOp<K>>): multiset<K> {
    if ops == [] then multiset{}
    else Supplies(ops[..|ops| - 1]) + Supply(Listings(ops[..|ops| - 1]), ops[|ops| - 1])
  }

  /** Which sets own their elements. */
  function Ownership<K>(ops: seq<WorldOp<K>>): (s: seq<bool>)
    ensures |s| == |Listings(ops)|
  {
    if ops == [] then [] else Owners(Ownership(ops[..|ops| - 1]), ops[|ops| - 1])
  }

  /** Every object the sets should have deleted. */
  function DoomedBy<K>(ops: seq<WorldOp<K>>): multiset<K> {
    if ops == [] then multiset{}
    else
      var rest := ops[..|ops| - 1];
      DoomedBy(rest) + Doomed(Ownership(rest), Listings(rest), ops[|ops| - 1])
  }

  function CreatedBy<K>(ops: seq<WorldOp<K>>): multiset<K> {
    if ops == [] then multiset{} else CreatedBy(ops[..|ops| - 1]) + Created(ops[|ops| - 1])
  }

  function DisposedBy<K>(ops: seq<WorldOp<K>>): multiset<K> {
    if ops == [] then multiset{} else DisposedBy(ops[..|ops| - 1]) + Disposed(ops[|ops| - 1])
  }

  /** The objects of the heap are those there have been, less those deleted. */
  lemma {:induction false} WorldRunDeletes<K(!new)>(objects: set<K>, ops: seq<WorldOp<K>>, w: World<K>)
    requires WorldRun(objects, ops, w)
    ensures OwnersOf(w.members) == Ownership(ops) && Total(Deleted(w.members)) == DoomedBy(ops)
    ensures multiset(objects) + CreatedBy(ops) == multiset(w.objects) + DoomedBy(ops) + DisposedBy(ops)
  {
    hide WorldInvariant, Shows, OnLists, Supply, Later, Possible, Doomed, Created, Disposed, Owners, OwnersOf, Deleted,
      Total;
    if ops == [] {
      EmptyWorldDeletes(objects);
    } else {
      var op, rest := ops[|ops| - 1], ops[..|ops| - 1];
      var u :| WorldRun(objects, rest, u) && WorldCall(u, op, w);
      WorldRunKeeps(objects, rest, u);
      WorldRunDeletes(objects, rest, u);
      LaterDeletes(u, Listings(rest), op);
      HeapBalances(multiset(objects), CreatedBy(rest), multiset(u.objects), DoomedBy(rest), DisposedBy(rest),
                   Created(op), multiset(w.objects), Doomed(Ownership(rest), Listings(rest), op), Disposed(op));
    }
  }

  lemma HeapBalances<K>(start: multiset<K>, created: multiset<K>, before: multiset<K>, doomed: multiset<K>,
                        disposed: multiset<K>, c: multiset<K>, after: multiset<K>, d: multiset<K>, e: multiset<K>)
    requires start + created == before + doomed + disposed && before + c == after + d + e
    ensures start + (created + c) == after + (doomed + d) + (disposed + e)
  {
    forall x ensures (start + (created + c))[x] == (after + (doomed + d) + (disposed + e))[x] {
      assert (start + created)[x] == (before + doomed + disposed)[x] && (before + c)[x] == (after + d + e)[x];
    }
  }

  lemma EmptyWorldDeletes<K>(objects: set<K>)
    ensures var w: World<K> := World(map[], objects, [], {});
      OwnersOf(w.members) == [] && Total(Deleted(w.members)) == multiset{}
  {
  }

  lemma {:induction false} WorldRunKeeps<K(!new)>(objects: set<K>, ops: seq<WorldOp<K>>, w: World<K>)
    requires WorldRun(objects, ops, w)
    ensures WorldInvariant(w) && Shows(w.members, Listings(ops)) && Total(Pushed(w.members)) == Supplies(ops)
  {
    hide WorldInvariant, Shows, OnLists, Supply, Later, Possible;
    if ops == [] {
      EmptyWorld(objects);
    } else {
      var op, rest := ops[|ops| - 1], ops[..|ops| - 1];
      var u :| WorldRun(objects, rest, u) && WorldCall(u, op, w);
      WorldRunKeeps(objects, rest, u);
      WorldKeeps(u, op);
      LaterShows(u, Listings(rest), op);
    }
  }

  lemma EmptyWorld<K>(objects: set<K>)
    ensures var w: World<K> := World(map[], objects, [], {});
      WorldInvariant(w) && Shows(w.members, []) && Total(Pushed(w.members)) == multiset{}
  {
  }

  /** Over every run of any number of sets: each set is consistent and holds what the same calls, moves included,
      leave in plain lists; no two sets share a cell, no two owning sets an element, and no live cell is without its
      set; every object handed in is in one of the lists, was deleted by a set, or was handed back, each as often as it
      was handed in; the sets have deleted exactly what they should, and the objects in the heap are those there were or
      the client created, less these and the ones the client deleted itself. */
  lemma {:induction false} WorldConserves<K(!new)>(objects: set<K>, ops: seq<WorldOp<K>>, w: World<K>)
    requires WorldRun(objects, ops, w)
    ensures WorldInvariant(w) && Shows(w.members, Listings(ops))
    ensures Supplies(ops) == Total(Listed(Listings(ops))) + Total(Deleted(w.members)) + Total(Released(w.members))
    ensures Total(Deleted(w.members)) == DoomedBy(ops)
    ensures multiset(objects) + CreatedBy(ops) == multiset(w.objects) + DoomedBy(ops) + DisposedBy(ops)
  {
    hide WorldRun, Listings, Supplies, Separate, InUse, Elements, Agree, DoomedBy, CreatedBy, DisposedBy;
    WorldRunKeeps(objects, ops, w);
    WorldRunDeletes(objects, ops, w);
    forall i | 0 <= i < |w.members|
      ensures Pushed(w.members)[i] == Listed(Listings(ops))[i] + Deleted(w.members)[i] + Released(w.members)[i]
    {
      WorldIs(w, i, i);
    }
    TotalSplits(Pushed(w.members), Listed(Listings(ops)), Deleted(w.members), Released(w.members));
  }

  /** Any call the client may make extends any run. */
  lemma {:induction false} WorldRunsContinue<K(!new)>(objects: set<K>, ops: seq<WorldOp<K>>, w: World<K>,
                                                      op: WorldOp<K>)
    requires WorldRun(objects, ops, w) && Possible(w, op)
    ensures WorldInvariant(w) && WorldRun(objects, ops + [op], Later(w, op))
  {
    hide WorldInvariant, Later, Possible;
    WorldRunKeeps(objects, ops, w);
    assert (ops + [op])[..|ops|] == ops && (ops + [op])[|ops|] == op;
    assert WorldCall(w, op, Later(w, op));
  }

  // ----- The same for two set objects -----

  /** A client that pushes into one of two separate set objects sharing a heap: the contract of PushBack alone is
      enough to know that the other one is still valid, and that all it sees of the call is the new cell. */
  method PushBackBeside<K(==, !new)>(p: OrderedSet<K>, q: OrderedSet<K>, item: K)
    requires p.Valid() && q.Valid() && p != q && p.memory == q.memory && p.index != q.index
    requires p.index.entries == null || p.index.entries != q.index.entries
    requires Separate(Member(p.owned, p.Snapshot()), Member(q.owned, q.Snapshot()))
    requires Fits(p.index.capacity, p.index.size, p.index.occupied) && !Sentinel(p.index.traits, item)
    requires forall k :: k in p.Values() ==> !p.index.traits.equal(k, item)
    requires p.owned ==> item in p.memory.objects
    requires p.owned && q.owned ==> !Lists(q.Snapshot(), item)
    modifies p, p.memory, p.index, p.index.entries
    ensures p.Valid() && p.Values() == old(p.Values()) + [item]
    ensures q.Valid() && q.Snapshot() == old(q.Snapshot()).(cells := p.memory.cells)
    ensures Separate(Member(p.owned, p.Snapshot()), Member(q.owned, q.Snapshot()))
  {
    hide Consistent, Foreign, Elements, TableInvariant, Separate, Lists, Spares, DrawsOn;
    ghost var v, r := p.Snapshot(), q.Snapshot();
    var cell := p.PushBack(item);
    ghost var u := p.Snapshot();
    CallsSpare(p.owned, v, Push(item, cell));
    OthersSurvive(p.owned, v, [item], u, Member(q.owned, r));
    assert q.Snapshot() == Seen(Member(q.owned, r), u.cells, u.objects).state;
  }
}
