/**
 Property lists as the writer meets them, a store of objects with identities, as the
 tree of references below an object, and as the value that tree stands for.
 */
module Plist {
  import opened Bytes

  datatype Option<+T> = None | Some(value: T)

  /** Where an object lies: that of a store or of a file, or one made anew at a place in the result. */
  datatype Address = Object(id: nat) | Occurrence(path: seq<nat>)

  /**
   A property list value. Sets and dictionaries list what they hold in the order in which it
   was added. Of a UID the address matters, because UIDs are equal only if they are the same object.
   */
  datatype Value =
    | Null
    | Bool(b: bool)
    | Int(v: int)
    | WideInt(high: int, low: nat)
    | Real(raw: seq<byte>)
    | Date(raw: seq<byte>)
    | Data(raw: seq<byte>)
    | Str(chars: seq<unichar>)
    | Uid(uid: nat, at: Address)
    | Array(elems: seq<Value>)
    | Set(members: seq<Value>)
    | Dict(keys: seq<Value>, values: seq<Value>)
  {
    predicate Primitive() {
      !Array? && !Set? && !Dict?
    }
  }

  type PrimitiveValue = v: Value | v.Primitive() witness Null

  // ----- Equality -----

  /** What equal values have in common: integers their number, sets and dictionaries what they hold in any order. */
  datatype Class =
    | Number(n: int)
    | Same(value: Value)
    | List(elems: seq<Class>)
    | Members(members: set<Class>)
    | Entries(entries: set<(Class, Class)>)

  function ClassOf(v: Value): Class {
    match v
    case Int(n) => Number(n)
    case WideInt(h, l) => Number(h * TWO64 + l)
    case Array(es) => List(seq(|es|, i requires 0 <= i < |es| => ClassOf(es[i])))
    case Set(ms) => Members(set i | 0 <= i < |ms| :: ClassOf(ms[i]))
    case Dict(ks, vs) => Entries(set i | 0 <= i < |ks| && i < |vs| :: (ClassOf(ks[i]), ClassOf(vs[i])))
    case _ => Same(v)
  }

  predicate Equal(v: Value, w: Value) {
    ClassOf(v) == ClassOf(w)
  }

  // ----- Putting containers together -----

  datatype Kind = ArrayKind | SetKind | DictKind

  /** An equal value comes earlier. */
  predicate Repeats(s: seq<Value>, j: nat)
    requires j < |s|
  {
    exists i :: 0 <= i < j && Equal(s[i], s[j])
  }

  /** The places that a set, or the keys of a dictionary, keep: adding an equal value again changes nothing. */
  function Kept(s: seq<Value>, n: nat): (r: seq<nat>)
    requires n <= |s|
    ensures forall i | 0 <= i < |r| :: r[i] < n
  {
    if n == 0 then [] else if Repeats(s, n - 1) then Kept(s, n - 1) else Kept(s, n - 1) + [n - 1]
  }

  function Pick<T>(s: seq<T>, places: seq<nat>): (r: seq<T>)
    requires forall i | 0 <= i < |places| :: places[i] < |s|
    ensures |r| == |places|
  {
    seq(|places|, i requires 0 <= i < |places| => s[places[i]])
  }

  /** The container of the given children, in the order of their references; a dictionary has its keys first. */
  function Assemble(kind: Kind, vals: seq<Value>): Value {
    match kind
    case ArrayKind => Array(vals)
    case SetKind => Set(Pick(vals, Kept(vals, |vals|)))
    case DictKind =>
      var h := |vals| / 2;
      var ks, vs := vals[..h], vals[h..];
      Dict(Pick(ks, Kept(ks, h)), Pick(vs, Kept(ks, h)))
  }

  /** The identity (address) of an object. */
  type Id = nat

  datatype Node =
    | Leaf(value: Value)
    | ArrayNode(elems: seq<Id>)
    | DictNode(keys: seq<Id>, values: seq<Id>)
  {
    /** The objects a container refers to, keys before values. */
    function Children(): seq<Id> {
      match this
      case Leaf(_) => []
      case ArrayNode(es) => es
      case DictNode(ks, vs) => ks + vs
    }
  }

  type Store = map<Id, Node>

  /** The ranges of CFNumber, CFDate and UID contents. */
  predicate LeafOk(v: Value) {
    match v
    case Int(n) => -0x8000_0000_0000_0000 <= n < 0x8000_0000_0000_0000
    case WideInt(h, l) => -0x8000_0000_0000_0000 <= h < 0x8000_0000_0000_0000 && l < TWO64
    case Real(raw) => |raw| == 4 || |raw| == 8
    case Date(raw) => |raw| == 8
    case Data(raw) => |raw| <= LONG_MAX
    case Str(chars) => |chars| <= LONG_MAX
    case Uid(u, _) => u < 0x1_0000_0000
    case Null => true
    case Bool(_) => true
    case _ => false
  }

  predicate NodeOk(n: Node) {
    match n
    case Leaf(v) => LeafOk(v)
    // an array of pointers to the elements fits the address space
    case ArrayNode(es) => 8 * |es| < TWO64
    case DictNode(ks, vs) => |ks| == |vs| && 16 * |ks| < TWO64
  }

  predicate Leaflike(st: Store, id: Id) {
    id in st && st[id].Leaf?
  }

  /** All of `ids` are in the store, with a rank below `bound`. */
  ghost predicate Below(st: Store, rank: map<Id, nat>, ids: seq<Id>, bound: nat) {
    forall c | c in ids :: c in st && c in rank && rank[c] < bound
  }

  /** References go strictly down in `rank`, dictionary keys are primitive, and a UID lies at its identity. */
  ghost predicate NodeBelow(st: Store, rank: map<Id, nat>, id: Id)
    requires id in st
  {
    && id in rank && NodeOk(st[id]) && Below(st, rank, st[id].Children(), rank[id])
    && (st[id].DictNode? ==> forall c | c in st[id].keys :: Leaflike(st, c))
    && (st[id].Leaf? && st[id].value.Uid? ==> st[id].value.at == Object(id))
  }

  /** An acyclic object graph. */
  ghost predicate Acyclic(st: Store, rank: map<Id, nat>) {
    forall id | id in st :: NodeBelow(st, rank, id)
  }

  // ----- Trees of references -----

  /** Everything below an object, before equal keys and members are merged. */
  datatype Tree = Atom(value: PrimitiveValue) | Branch(kind: Kind, children: seq<Tree>)

  /** Keys are primitive and every key has a value. */
  predicate CanJoin(kind: Kind, ts: seq<Tree>) {
    kind == DictKind ==> |ts| % 2 == 0 && forall i | 0 <= i < |ts| / 2 :: ts[i].Atom?
  }

  /** The value of a tree in which a UID is one object wherever it occurs. */
  ghost function Shared(t: Tree): Value {
    match t
    case Atom(v) => v
    case Branch(kind, cs) => Assemble(kind, seq(|cs|, i requires 0 <= i < |cs| => Shared(cs[i])))
  }

  /** The tree below an object of the store. */
  ghost function TreeAt(st: Store, rank: map<Id, nat>, id: Id): Tree
    requires Acyclic(st, rank) && id in st
    decreases rank[id]
  {
    assert NodeBelow(st, rank, id);
    match st[id]
    case Leaf(v) => Atom(v)
    case ArrayNode(es) => Branch(ArrayKind, TreesAt(st, rank, es, rank[id]))
    case DictNode(ks, vs) => Branch(DictKind, TreesAt(st, rank, ks + vs, rank[id]))
  }

  ghost function TreesAt(st: Store, rank: map<Id, nat>, ids: seq<Id>, bound: nat): (ts: seq<Tree>)
    requires Acyclic(st, rank) && Below(st, rank, ids, bound)
    ensures |ts| == |ids| && forall i | 0 <= i < |ids| :: ts[i] == TreeAt(st, rank, ids[i])
    decreases bound, |ids|
  {
    if ids == [] then [] else [TreeAt(st, rank, ids[0])] + TreesAt(st, rank, ids[1..], bound)
  }

  /** The value of the object graph below `id`. */
  ghost function Unfold(st: Store, rank: map<Id, nat>, id: Id): Value
    requires Acyclic(st, rank) && id in st
  {
    Shared(TreeAt(st, rank, id))
  }
}
