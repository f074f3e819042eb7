/** Flattening an object graph into a numbered list of objects, with sharing by identity. */
module PlistFlatten {
  import opened Plist

  /** The writer's `objlist`, `objtable` and `uniquingset`. */
  datatype Flat = Flat(list: seq<Id>, table: map<Id, nat>, uniq: set<Id>)

  const EMPTY := Flat([], map[], {})

  /** Strings, numbers, dates and data are written once per identity. */
  predicate Uniqued(n: Node) {
    n.Leaf? && (n.value.Str? || n.value.Int? || n.value.WideInt? || n.value.Real? || n.value.Date? || n.value.Data?)
  }

  function Enter(f: Flat, id: Id, uniqued: bool): Flat {
    Flat(f.list + [id],
         if id in f.table then f.table else f.table[id := |f.list|],
         if uniqued then f.uniq + {id} else f.uniq)
  }

  ghost function Visit(st: Store, rank: map<Id, nat>, id: Id, f: Flat): Flat
    requires Acyclic(st, rank) && id in st
    decreases rank[id]
  {
    if Uniqued(st[id]) && id in f.uniq then f
    else VisitAll(st, rank, st[id].Children(), rank[id], Enter(f, id, Uniqued(st[id])))
  }

  ghost function VisitAll(st: Store, rank: map<Id, nat>, ids: seq<Id>, bound: nat, f: Flat): Flat
    requires Acyclic(st, rank) && Below(st, rank, ids, bound)
    decreases bound, |ids|
  {
    if ids == [] then f
    else VisitAll(st, rank, ids[1..], bound, Visit(st, rank, ids[0], f))
  }

  /** The state that writing `root` starts from. */
  ghost function Flatten(st: Store, rank: map<Id, nat>, root: Id): Flat
    requires Acyclic(st, rank) && root in st
  {
    Visit(st, rank, root, EMPTY)
  }

  /** A table entry names an index that holds that very object, and every listed object has an entry. */
  ghost predicate Consistent(st: Store, f: Flat) {
    && (forall id | id in f.table :: f.table[id] < |f.list| && f.list[f.table[id]] == id)
    && (forall i | 0 <= i < |f.list| :: f.list[i] in f.table && f.list[i] in st)
    && (forall i | 0 <= i < |f.list| :: Uniqued(st[f.list[i]]) ==> f.list[i] in f.uniq)
    && f.uniq <= f.table.Keys
  }

  ghost predicate ClosedFrom(st: Store, f: Flat, k: nat)
    requires Consistent(st, f)
  {
    forall i | k <= i < |f.list| :: ChildrenListed(st, f, f.list[i])
  }

  ghost predicate ChildrenListed(st: Store, f: Flat, id: Id)
    requires id in st
  {
    forall c | c in st[id].Children() :: c in f.table
  }

  ghost predicate WrittenOnce(st: Store, f: Flat)
    requires Consistent(st, f)
  {
    forall i, j | 0 <= i < j < |f.list| && f.list[i] == f.list[j] :: !Uniqued(st[f.list[i]])
  }

  ghost predicate Extends(f: Flat, g: Flat) {
    && f.list <= g.list
    && (forall id | id in f.table :: id in g.table && g.table[id] == f.table[id])
  }

  lemma EnterKeeps(st: Store, f: Flat, id: Id)
    requires Consistent(st, f) && WrittenOnce(st, f) && id in st
    requires !(Uniqued(st[id]) && id in f.uniq)
    ensures var g := Enter(f, id, Uniqued(st[id]));
            Consistent(st, g) && WrittenOnce(st, g) && Extends(f, g) && id in g.table && g.list[|f.list|] == id
  {
    var g := Enter(f, id, Uniqued(st[id]));
    forall i, j | 0 <= i < j < |g.list| && g.list[i] == g.list[j] ensures !Uniqued(st[g.list[i]]) {
      if j < |f.list| {
        assert f.list[i] == f.list[j];
      } else {
        assert f.list[i] == id;
      }
    }
  }

  lemma {:induction false} VisitKeeps(st: Store, rank: map<Id, nat>, id: Id, f: Flat)
    requires Acyclic(st, rank) && id in st && Consistent(st, f) && WrittenOnce(st, f)
    ensures var g := Visit(st, rank, id, f);
            Consistent(st, g) && WrittenOnce(st, g) && Extends(f, g) && id in g.table && ClosedFrom(st, g, |f.list|)
    decreases rank[id]
  {
    if !(Uniqued(st[id]) && id in f.uniq) {
      EnterKeeps(st, f, id);
      var e := Enter(f, id, Uniqued(st[id]));
      VisitAllKeeps(st, rank, st[id].Children(), rank[id], e);
      var g := Visit(st, rank, id, f);
      assert g.list[|f.list|] == id;
      assert ChildrenListed(st, g, id);
    }
  }

  lemma {:induction false} VisitAllKeeps(st: Store, rank: map<Id, nat>, ids: seq<Id>, bound: nat, f: Flat)
    requires Acyclic(st, rank) && Consistent(st, f) && WrittenOnce(st, f)
    requires Below(st, rank, ids, bound)
    ensures var g := VisitAll(st, rank, ids, bound, f);
            Consistent(st, g) && WrittenOnce(st, g) && Extends(f, g) && ClosedFrom(st, g, |f.list|)
    ensures forall c | c in ids :: c in VisitAll(st, rank, ids, bound, f).table
    decreases bound, |ids|
  {
    if ids != [] {
      var h := Visit(st, rank, ids[0], f);
      VisitKeeps(st, rank, ids[0], f);
      VisitAllKeeps(st, rank, ids[1..], bound, h);
      var g := VisitAll(st, rank, ids, bound, f);
      forall i | |f.list| <= i < |g.list| ensures ChildrenListed(st, g, g.list[i]) {
        if i < |h.list| {
          assert ChildrenListed(st, h, h.list[i]);
        }
      }
    }
  }

  // ----- The list, by the objects themselves -----

  /** What the writer keeps a single copy of: strings, numbers, dates and data. */
  ghost predicate OnceOnly(n: Node) {
    match n
    case ArrayNode(_) => false
    case DictNode(_, _) => false
    case Leaf(v) =>
      match v
      case Str(_) => true
      case Int(_) => true
      case WideInt(_, _) => true
      case Real(_) => true
      case Date(_) => true
      case Data(_) => true
      case Bool(_) => false
      case Null => false
      case Uid(_, _) => false
      case Array(_) => false
      case Set(_) => false
      case Dict(_, _) => false
  }

  /**
   Every object below `id` as often as it is met: itself, then what it holds, the keys of a
   dictionary before its values.
   */
  ghost function Walk(st: Store, rank: map<Id, nat>, id: Id): seq<Id>
    requires Acyclic(st, rank) && id in st
    decreases rank[id]
  {
    assert NodeBelow(st, rank, id);
    match st[id]
    case Leaf(_) => [id]
    case ArrayNode(es) => [id] + WalkAll(st, rank, es, rank[id])
    case DictNode(ks, vs) =>
      assert forall c | c in ks || c in vs :: c in ks + vs;
      [id] + WalkAll(st, rank, ks, rank[id]) + WalkAll(st, rank, vs, rank[id])
  }

  ghost function WalkAll(st: Store, rank: map<Id, nat>, ids: seq<Id>, bound: nat): seq<Id>
    requires Acyclic(st, rank) && Below(st, rank, ids, bound)
    decreases bound, |ids|
  {
    if ids == [] then [] else Walk(st, rank, ids[0]) + WalkAll(st, rank, ids[1..], bound)
  }

  /** The objects of a walk in order, without the later copies of what is kept once. */
  ghost function FirstCopies(st: Store, walk: seq<Id>): seq<Id>
    requires forall id | id in walk :: id in st
  {
    if walk == [] then []
    else
      var init, last := walk[..|walk| - 1], walk[|walk| - 1];
      if OnceOnly(st[last]) && last in init then FirstCopies(st, init) else FirstCopies(st, init) + [last]
  }

  /** One object after the other. */
  ghost function EnterWalk(st: Store, f: Flat, walk: seq<Id>): Flat
    requires forall id | id in walk :: id in st
  {
    if walk == [] then f
    else
      var init, last := walk[..|walk| - 1], walk[|walk| - 1];
      var g := EnterWalk(st, f, init);
      if Uniqued(st[last]) && last in g.uniq then g else Enter(g, last, Uniqued(st[last]))
  }

  lemma {:induction false} WalkInStore(st: Store, rank: map<Id, nat>, id: Id, x: Id)
    requires Acyclic(st, rank) && id in st && x in Walk(st, rank, id)
    ensures x in st
    decreases rank[id]
  {
    assert NodeBelow(st, rank, id);
    match st[id]
    case Leaf(_) =>
    case ArrayNode(es) =>
      if x != id {
        WalkAllInStore(st, rank, es, rank[id], x);
      }
    case DictNode(ks, vs) =>
      assert forall c | c in ks || c in vs :: c in ks + vs;
      if x in WalkAll(st, rank, ks, rank[id]) {
        WalkAllInStore(st, rank, ks, rank[id], x);
      } else if x in WalkAll(st, rank, vs, rank[id]) {
        WalkAllInStore(st, rank, vs, rank[id], x);
      }
  }

  lemma {:induction false} WalkAllInStore(st: Store, rank: map<Id, nat>, ids: seq<Id>, bound: nat, x: Id)
    requires Acyclic(st, rank) && Below(st, rank, ids, bound) && x in WalkAll(st, rank, ids, bound)
    ensures x in st
    decreases bound, |ids|
  {
    if x in Walk(st, rank, ids[0]) {
      WalkInStore(st, rank, ids[0], x);
    } else {
      WalkAllInStore(st, rank, ids[1..], bound, x);
    }
  }

  lemma {:induction false} EnterWalkJoin(st: Store, f: Flat, a: seq<Id>, b: seq<Id>)
    requires forall id | id in a + b :: id in st
    ensures (forall id | id in a :: id in st) && (forall id | id in b :: id in st)
    ensures EnterWalk(st, f, a + b) == EnterWalk(st, EnterWalk(st, f, a), b)
    decreases |b|
  {
    assert forall id | id in a || id in b :: id in a + b;
    if b == [] {
      assert a + b == a;
    } else {
      var init := b[..|b| - 1];
      assert (a + b)[..|a + b| - 1] == a + init;
      EnterWalkJoin(st, f, a, init);
    }
  }

  lemma EnterWalkOne(st: Store, f: Flat, id: Id)
    requires id in st
    ensures EnterWalk(st, f, [id]) == if Uniqued(st[id]) && id in f.uniq then f else Enter(f, id, Uniqued(st[id]))
  {
    assert [id][..0] == [];
  }

  lemma {:induction false} WalkAllJoin(st: Store, rank: map<Id, nat>, a: seq<Id>, b: seq<Id>, bound: nat)
    requires Acyclic(st, rank) && Below(st, rank, a + b, bound)
    ensures Below(st, rank, a, bound) && Below(st, rank, b, bound)
    ensures WalkAll(st, rank, a + b, bound) == WalkAll(st, rank, a, bound) + WalkAll(st, rank, b, bound)
    decreases |a|
  {
    assert forall c | c in a || c in b :: c in a + b;
    if a == [] {
      assert a + b == b;
    } else {
      assert (a + b)[1..] == a[1..] + b;
      WalkAllJoin(st, rank, a[1..], b, bound);
    }
  }

  /** A walk is an object and the walks of its children. */
  lemma WalkSplits(st: Store, rank: map<Id, nat>, id: Id)
    requires Acyclic(st, rank) && id in st && NodeBelow(st, rank, id)
    ensures Walk(st, rank, id) == [id] + WalkAll(st, rank, st[id].Children(), rank[id])
  {
    match st[id]
    case Leaf(_) =>
    case ArrayNode(_) =>
    case DictNode(ks, vs) => WalkAllJoin(st, rank, ks, vs, rank[id]);
  }

  /** Flattening enters the objects of the walk one after the other. */
  lemma {:induction false} VisitIsWalk(st: Store, rank: map<Id, nat>, id: Id, f: Flat)
    requires Acyclic(st, rank) && id in st && (forall x | x in Walk(st, rank, id) :: x in st)
    ensures Visit(st, rank, id, f) == EnterWalk(st, f, Walk(st, rank, id))
    decreases rank[id]
  {
    assert NodeBelow(st, rank, id);
    var ids := st[id].Children();
    WalkSplits(st, rank, id);
    EnterWalkJoin(st, f, [id], WalkAll(st, rank, ids, rank[id]));
    EnterWalkOne(st, f, id);
    if Uniqued(st[id]) {
      assert ids == [];
    } else {
      VisitAllIsWalk(st, rank, ids, rank[id], Enter(f, id, false));
    }
  }

  lemma {:induction false} VisitAllIsWalk(st: Store, rank: map<Id, nat>, ids: seq<Id>, bound: nat, f: Flat)
    requires Acyclic(st, rank) && Below(st, rank, ids, bound) &&
             (forall x | x in WalkAll(st, rank, ids, bound) :: x in st)
    ensures VisitAll(st, rank, ids, bound, f) == EnterWalk(st, f, WalkAll(st, rank, ids, bound))
    decreases bound, |ids|
  {
    if ids != [] {
      var a, b := Walk(st, rank, ids[0]), WalkAll(st, rank, ids[1..], bound);
      EnterWalkJoin(st, f, a, b);
      VisitIsWalk(st, rank, ids[0], f);
      VisitAllIsWalk(st, rank, ids[1..], bound, EnterWalk(st, f, a));
    }
  }

  /** What has been entered: the first copies, each with the index of the first one in the table. */
  ghost predicate Entered(st: Store, walk: seq<Id>, f: Flat)
    requires forall id | id in walk :: id in st
  {
    && f.list == FirstCopies(st, walk)
    && (forall id :: id in f.uniq <==> id in walk && OnceOnly(st[id]))
    && (forall id :: id in f.list <==> id in walk)
    && FirstIndices(f)
  }

  /** The table has exactly the listed objects, each with the first index it is listed at. */
  ghost predicate FirstIndices(f: Flat) {
    && (forall id :: id in f.table <==> id in f.list)
    && (forall id | id in f.table ::
          f.table[id] < |f.list| && f.list[f.table[id]] == id && id !in f.list[..f.table[id]])
  }

  lemma EnterFirst(f: Flat, id: Id, uniqued: bool)
    requires FirstIndices(f)
    ensures FirstIndices(Enter(f, id, uniqued))
  {
    var g := Enter(f, id, uniqued);
    forall x | x in g.table
      ensures g.table[x] < |g.list| && g.list[g.table[x]] == x && x !in g.list[..g.table[x]]
    {
      if x in f.table {
        assert g.list[..g.table[x]] == f.list[..f.table[x]];
      } else {
        assert g.list[..g.table[x]] == f.list;
      }
    }
  }

  lemma UniquedIsOnceOnly(n: Node)
    ensures Uniqued(n) <==> OnceOnly(n)
  {
  }

  lemma {:induction false} WalkEntered(st: Store, walk: seq<Id>)
    requires forall id | id in walk :: id in st
    ensures Entered(st, walk, EnterWalk(st, EMPTY, walk))
  {
    if walk != [] {
      var init, last := walk[..|walk| - 1], walk[|walk| - 1];
      WalkEntered(st, init);
      UniquedIsOnceOnly(st[last]);
      assert walk == init + [last];
      EnterFirst(EnterWalk(st, EMPTY, init), last, Uniqued(st[last]));
    }
  }

  /** A way down from `x` to `y`, each object held by the one before it. */
  ghost predicate IsWay(st: Store, p: seq<Id>, x: Id, y: Id) {
    && p != [] && p[0] == x && p[|p| - 1] == y
    && forall i | 0 < i < |p| :: HeldBefore(st, p, i)
  }

  ghost predicate HeldBefore(st: Store, p: seq<Id>, i: nat)
    requires 0 < i < |p|
  {
    p[i - 1] in st && Holds(st[p[i - 1]], p[i])
  }

  ghost predicate Holds(n: Node, c: Id) {
    match n
    case Leaf(_) => false
    case ArrayNode(es) => c in es
    case DictNode(ks, vs) => c in ks || c in vs
  }

  /** The root leads down to `x`. */
  ghost predicate Reaches(st: Store, root: Id, x: Id) {
    exists p :: IsWay(st, p, root, x)
  }

  lemma ReachesFirst(st: Store, id: Id, c: Id, x: Id)
    requires id in st && Holds(st[id], c) && Reaches(st, c, x)
    ensures Reaches(st, id, x)
  {
    var p :| IsWay(st, p, c, x);
    var q := [id] + p;
    forall i | 0 < i < |q| ensures HeldBefore(st, q, i) {
      if i > 1 {
        assert HeldBefore(st, p, i - 1);
      }
    }
    assert IsWay(st, q, id, x);
  }

  lemma {:induction false} WalkReaches(st: Store, rank: map<Id, nat>, id: Id, x: Id)
    requires Acyclic(st, rank) && id in st && x in Walk(st, rank, id)
    ensures Reaches(st, id, x)
    decreases rank[id]
  {
    assert NodeBelow(st, rank, id);
    WalkSplits(st, rank, id);
    if x == id {
      assert IsWay(st, [id], id, id);
    } else {
      var c := WalkAllReaches(st, rank, st[id].Children(), rank[id], x);
      ReachesFirst(st, id, c, x);
    }
  }

  lemma {:induction false} WalkAllReaches(st: Store, rank: map<Id, nat>, ids: seq<Id>, bound: nat, x: Id)
    returns (c: Id)
    requires Acyclic(st, rank) && Below(st, rank, ids, bound) && x in WalkAll(st, rank, ids, bound)
    ensures c in ids && Reaches(st, c, x)
    decreases bound, |ids|
  {
    if x in Walk(st, rank, ids[0]) {
      c := ids[0];
      WalkReaches(st, rank, c, x);
    } else {
      c := WalkAllReaches(st, rank, ids[1..], bound, x);
    }
  }

  lemma {:induction false} CopiesAre(st: Store, walk: seq<Id>, i: nat, j: nat)
    requires (forall id | id in walk :: id in st) && i < j < |FirstCopies(st, walk)|
    requires FirstCopies(st, walk)[i] == FirstCopies(st, walk)[j]
    ensures FirstCopies(st, walk)[i] in st && !OnceOnly(st[FirstCopies(st, walk)[i]])
    decreases |walk|
  {
    var init, last := walk[..|walk| - 1], walk[|walk| - 1];
    WalkEntered(st, init);
    var list := FirstCopies(st, init);
    if j < |list| {
      CopiesAre(st, init, i, j);
    } else {
      assert list[i] == last;
    }
  }

  /**
   What is listed, by the objects themselves: those met on a walk from the root that goes through
   keys before values, in that order, without later copies of strings, numbers, dates and data. Only
   arrays, dictionaries, booleans, nulls and UIDs are listed more than once, every listed object can
   be reached from the root, and the table has the first index of each.
   */
  lemma FlattenLists(st: Store, rank: map<Id, nat>, root: Id)
    requires Acyclic(st, rank) && root in st
    ensures forall x | x in Walk(st, rank, root) :: x in st
    ensures var f := Flatten(st, rank, root);
            && f.list == FirstCopies(st, Walk(st, rank, root)) && FirstIndices(f)
            && (forall x | x in f.list :: Reaches(st, root, x))
            && (forall i, j | 0 <= i < j < |f.list| && f.list[i] == f.list[j] ::
                  f.list[i] in st && !OnceOnly(st[f.list[i]]))
  {
    var walk, f := Walk(st, rank, root), Flatten(st, rank, root);
    forall x | x in walk ensures x in st && Reaches(st, root, x) {
      WalkInStore(st, rank, root, x);
      WalkReaches(st, rank, root, x);
    }
    VisitIsWalk(st, rank, root, EMPTY);
    WalkEntered(st, walk);
    forall i, j | 0 <= i < j < |f.list| && f.list[i] == f.list[j] ensures f.list[i] in st && !OnceOnly(st[f.list[i]]) {
      CopiesAre(st, walk, i, j);
    }
  }

  /**
   After flattening: the root is object 0, the table and the list agree, every child
   of every listed container is in the table, and no uniqued object is listed twice.
   */
  lemma FlattenCorrect(st: Store, rank: map<Id, nat>, root: Id)
    requires Acyclic(st, rank) && root in st
    ensures var f := Flatten(st, rank, root);
            && Consistent(st, f)
            && ClosedFrom(st, f, 0)
            && WrittenOnce(st, f)
            && |f.list| > 0 && f.list[0] == root && root in f.table && f.table[root] == 0
  {
    VisitKeeps(st, rank, root, EMPTY);
    var e := Enter(EMPTY, root, Uniqued(st[root]));
    EnterKeeps(st, EMPTY, root);
    VisitAllKeeps(st, rank, st[root].Children(), rank[root], e);
    assert e.list[0] == root && e.table[root] == 0;
  }

  lemma SizeTellsMembership(s: set<Id>, x: Id)
    ensures |s + {x}| == |s| <==> x in s
  {
    if x in s {
      assert s + {x} == s;
    }
  }

  class Flattener {
    var objlist: seq<Id>
    var objtable: map<Id, nat>
    var uniquingset: set<Id>

    constructor ()
      ensures State() == EMPTY
    {
      objlist, objtable, uniquingset := [], map[], {};
    }

    function State(): Flat
      reads this
    {
      Flat(objlist, objtable, uniquingset)
    }

    method FlattenPlist(st: Store, ghost rank: map<Id, nat>, plist: Id)
      requires Acyclic(st, rank) && plist in st
      modifies this
      ensures State() == Visit(st, rank, plist, old(State()))
      decreases rank[plist]
    {
      if Uniqued(st[plist]) {
        var before := |uniquingset|;
        var grown := uniquingset + {plist};
        SizeTellsMembership(uniquingset, plist);
        if |grown| == before {
          // already in the set; sharing is by address, so the member found is this object
          return;
        }
        uniquingset := grown;
      }
      var refnum := |objlist|;
      objlist := objlist + [plist];
      if plist !in objtable {
        objtable := objtable[plist := refnum];
      }
      var list := st[plist].Children();
      var idx := 0;
      assert list[0..] == list;
      while idx < |list|
        invariant 0 <= idx <= |list|
        invariant Visit(st, rank, plist, old(State())) == VisitAll(st, rank, list[idx..], rank[plist], State())
      {
        assert list[idx..][0] == list[idx] && list[idx..][1..] == list[idx + 1..];
        FlattenPlist(st, rank, list[idx]);
        idx := idx + 1;
      }
    }
  }
}
