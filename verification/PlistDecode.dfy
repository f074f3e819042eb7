/**
 The reader: decodes an object and everything below it with a memo table and, past
 depth 15, a set of the offsets on the way down. It returns exactly what the tree that the
 reference graph of the file gives the object stands for, with UIDs shared if there is a memo
 table and made anew otherwise.
 */
module PlistDecode {
  import opened Bytes
  import opened Plist
  import opened PlistReader
  import opened RefGraph

  ghost function Join(kind: Kind, ts: seq<Tree>): Option<Tree> {
    if CanJoin(kind, ts) then Some(Branch(kind, ts)) else None
  }

  ghost function CellAt(doc: Doc, off: nat): Cell<Tree>
    requires ValidDoc(doc)
  {
    match ShapeAt(doc, off)
    case None => Bad
    case Some(Primitive(v)) => Done(Atom(v))
    case Some(Container(kind, ptr, count)) => Node(ReadRefs(doc, ptr, count), ts => Join(kind, ts))
  }

  lemma CellOfLeaf(doc: Doc, off: nat, v: PrimitiveValue)
    requires ValidDoc(doc) && ShapeAt(doc, off) == Some(Primitive(v))
    ensures CellAt(doc, off) == Done(Atom(v))
  {
  }

  lemma CellOfContainer(doc: Doc, off: nat, kind: Kind, ptr: nat, count: nat)
    requires ValidDoc(doc) && ShapeAt(doc, off) == Some(Container(kind, ptr, count))
    ensures CellAt(doc, off).Node? && CellAt(doc, off).refs == ReadRefs(doc, ptr, count)
    ensures forall ts :: CellAt(doc, off).make(ts) == Join(kind, ts)
  {
  }

  ghost function GraphOf(doc: Doc): Graph<Tree>
    requires ValidDoc(doc)
  {
    (off: nat) => CellAt(doc, off)
  }

  // ----- Where UIDs come from -----

  /** A primitive as it is made at a place: without a memo table a UID is a new object there. */
  function AtomAt(v: PrimitiveValue, place: seq<nat>): PrimitiveValue {
    if v.Uid? then Uid(v.uid, Occurrence(place)) else v
  }

  /** The value of a tree in which every UID is made anew. */
  ghost function Separate(t: Tree, place: seq<nat>): Value
    decreases t
  {
    match t
    case Atom(v) => AtomAt(v, place)
    case Branch(kind, cs) => Assemble(kind, seq(|cs|, i requires 0 <= i < |cs| => Separate(cs[i], place + [i])))
  }

  /** What the reader makes of a tree: with a memo table each UID of the file becomes one object. */
  ghost function Made(t: Tree, memo: bool, place: seq<nat>): Value {
    if memo then Shared(t) else Separate(t, place)
  }

  ghost function AllMade(ts: seq<Tree>, memo: bool, place: seq<nat>): (vals: seq<Value>)
    ensures |vals| == |ts|
  {
    seq(|ts|, i requires 0 <= i < |ts| => Made(ts[i], memo, place + [i]))
  }

  lemma MadeBranch(kind: Kind, ts: seq<Tree>, memo: bool, place: seq<nat>)
    ensures Made(Branch(kind, ts), memo, place) == Assemble(kind, AllMade(ts, memo, place))
  {
    if memo {
      assert AllMade(ts, memo, place) == seq(|ts|, i requires 0 <= i < |ts| => Shared(ts[i]));
    } else {
      assert AllMade(ts, memo, place) == seq(|ts|, i requires 0 <= i < |ts| => Separate(ts[i], place + [i]));
    }
  }

  /** The offsets that the offset table holds. */
  ghost function Universe(doc: Doc): set<nat>
    requires ValidDoc(doc)
  {
    set i | 0 <= i < doc.t.numObjects :: OffsetAt(doc, i)
  }

  /** References lead to offsets of the table, or nowhere. */
  predicate Known(u: set<nat>, off: nat) {
    off == MAX_OFFSET || off in u
  }

  /** `g` is the reference graph of the file and `u` holds every offset that a reference can lead to. */
  ghost predicate Describes(g: Graph<Tree>, u: set<nat>, doc: Doc) {
    && ValidDoc(doc)
    && (forall off: nat {:trigger CellAt(doc, off)} :: g(off) == CellAt(doc, off))
    && (forall ptr: nat {:trigger OffsetOfRef(doc, ptr)} :: Known(u, OffsetOfRef(doc, ptr)))
  }

  lemma GraphDescribes(doc: Doc)
    requires ValidDoc(doc)
    ensures Describes(GraphOf(doc), Universe(doc), doc)
  {
  }

  datatype Mutability = Immutable | MutableContainers | MutableContainersAndLeaves

  /** Offsets already decoded. */
  class ObjectTable {
    var items: map<nat, Value>

    constructor ()
      ensures items == map[]
    {
      items := map[];
    }
  }

  /** The containers on the path down to the current object. */
  class PathSet {
    var items: set<nat>

    constructor ()
      ensures items == {}
    {
      items := {};
    }
  }

  /** The result for an offset: its tree as a value, or failure if it has none. */
  ghost predicate Results(g: Graph<Tree>, off: nat, memo: bool, place: seq<nat>, r: Option<Value>) {
    match Decoded(g, off)
    case None => r == None
    case Some(t) => r == Some(Made(t, memo, place)) && (r.value.Primitive() <==> t.Atom?)
  }

  /** Every remembered value is the value of its offset. */
  ghost predicate MemoOk(g: Graph<Tree>, items: map<nat, Value>) {
    forall off | off in items :: Results(g, off, true, [], Some(items[off]))
  }

  /** The members of the path set lead down to `off`, and their number gives the depth. */
  ghost predicate PathOk(g: Graph<Tree>, u: set<nat>, items: set<nat>, off: nat, depth: nat) {
    && items <= u
    && (forall p | p in items :: Above(g, p, off))
    && depth == 16 + |items|
  }

  /** Which primitives the reader remembers. */
  predicate Remembered(v: Value, option: Mutability) {
    match v
    case Null => false
    case Bool(_) => false
    case Data(_) => option != MutableContainersAndLeaves
    case Str(_) => option != MutableContainersAndLeaves
    case _ => true
  }

  lemma SubsetBound(a: set<nat>, b: set<nat>)
    requires a <= b
    ensures |a| <= |b|
  {
    assert b == a + (b - a);
  }

  /** Going from a container to one of its children. */
  lemma PathGrows(g: Graph<Tree>, u: set<nat>, items: set<nat>, off: nat, child: nat, depth: nat)
    requires PathOk(g, u, items, off, depth) && off in u && off !in items && child in Refs(g, off)
    ensures PathOk(g, u, items + {off}, child, depth + 1)
    ensures |items + {off}| <= |u|
  {
    forall p | p in items + {off} ensures Above(g, p, child) {
      AboveStep(g, p, off, child);
    }
    SubsetBound(items + {off}, u);
  }

  /**
   Decodes the object at `off`, which the result holds at `place`. The depth never passes 16
   by more than the number of offsets, because past 15 the path set grows with it.
   */
  method CreateObject(doc: Doc, ghost g: Graph<Tree>, ghost u: set<nat>, off: nat, place: seq<nat>, option: Mutability,
                      objects: ObjectTable?, path: PathSet?, depth: nat)
    returns (r: Option<Value>)
    requires Describes(g, u, doc) && Known(u, off)
    requires objects != null ==> MemoOk(g, objects.items)
    requires path != null ==> PathOk(g, u, path.items, off, depth)
    requires path == null ==> depth <= 16
    requires depth <= 16 + |u|
    modifies objects, path
    ensures Results(g, off, objects != null, place, r)
    ensures objects != null ==> MemoOk(g, objects.items)
    ensures path != null && r.Some? ==> path.items == old(path.items)
    decreases if path == null then 17 - depth else 0, if path == null then {} else u - path.items, 1
  {
    if objects != null && off in objects.items {
      return Some(objects.items[off]);
    }
    if path != null && off in path.items {
      CycleFails(g, off, off);
      return None;
    }
    DecodedStep(g, off);
    var shape := Look(doc, g, u, off);
    match shape
    case None =>
      return None;
    case Some(Primitive(v)) =>
      var made := if objects == null then AtomAt(v, place) else v;
      if objects != null && Remembered(v, option) {
        objects.items := objects.items[off := made];
      }
      return Some(made);
    case Some(Container(kind, ptr, count)) =>
      r := CreateContainer(doc, g, u, off, place, kind, ptr, count, option, objects, path, depth);
  }

  /** What lies at `off`, as the graph has it. */
  method Look(doc: Doc, ghost g: Graph<Tree>, ghost u: set<nat>, off: nat) returns (shape: Option<Shape>)
    requires Describes(g, u, doc) && Known(u, off)
    ensures shape == None ==> g(off).Bad?
    ensures shape.Some? && shape.value.Primitive? ==> g(off) == Done(Atom(shape.value.value))
    ensures shape.Some? && shape.value.Container? ==>
              && off in u && RefsAt(doc, g, off, shape.value.kind, shape.value.ptr, shape.value.count)
              && Makes(g, off, shape.value.kind)
  {
    shape := ShapeAt(doc, off);
    assert g(off) == CellAt(doc, off);
    match shape
    case None =>
    case Some(Primitive(v)) =>
      CellOfLeaf(doc, off, v);
    case Some(Container(kind, ptr, count)) =>
      CellOfContainer(doc, off, kind, ptr, count);
      ShapeInside(doc, off);
  }

  /** The container at `off` joins its children as its kind does. */
  ghost predicate Makes(g: Graph<Tree>, off: nat, kind: Kind) {
    g(off).Node? && forall ts :: g(off).make(ts) == Join(kind, ts)
  }

  /** The references of the container at `off` lie from `start` on. */
  ghost predicate RefsAt(doc: Doc, g: Graph<Tree>, off: nat, kind: Kind, start: nat, count: nat)
    requires ValidDoc(doc)
  {
    g(off).Node? && g(off).refs == ReadRefs(doc, start, count) && (kind == DictKind ==> count % 2 == 0)
  }

  method CreateContainer(doc: Doc, ghost g: Graph<Tree>, ghost u: set<nat>, off: nat, place: seq<nat>, kind: Kind,
                         start: nat, count: nat, option: Mutability, objects: ObjectTable?, path: PathSet?, depth: nat)
    returns (r: Option<Value>)
    requires Describes(g, u, doc) && off in u && RefsAt(doc, g, off, kind, start, count)
    requires Makes(g, off, kind)
    requires objects != null ==> MemoOk(g, objects.items)
    requires path != null ==> PathOk(g, u, path.items, off, depth) && off !in path.items
    requires path == null ==> depth <= 16
    modifies objects, path
    ensures Results(g, off, objects != null, place, r)
    ensures objects != null ==> MemoOk(g, objects.items)
    ensures path != null && r.Some? ==> path.items == old(path.items)
    decreases if path == null then 17 - depth else 0, if path == null then {} else u - path.items, 0
  {
    var pathSet := path;
    if pathSet == null && 15 < depth {
      pathSet := new PathSet();
    }
    ghost var above := if pathSet == null then {} else pathSet.items;
    if pathSet != null {
      pathSet.items := pathSet.items + {off};
    }
    r := FillContainer(doc, g, u, off, place, above, kind, start, count, option, objects, pathSet, depth);
    if r.Some? && pathSet != null {
      pathSet.items := pathSet.items - {off};
    }
    if objects != null && r.Some? && option == Immutable {
      objects.items := objects.items[off := r.value];
    }
  }

  /** Decodes the children and puts the container together. */
  method FillContainer(doc: Doc, ghost g: Graph<Tree>, ghost u: set<nat>, ghost off: nat, place: seq<nat>,
                       ghost above: set<nat>, kind: Kind, start: nat, count: nat, option: Mutability,
                       objects: ObjectTable?, path: PathSet?, depth: nat)
    returns (r: Option<Value>)
    requires Describes(g, u, doc) && off in u && RefsAt(doc, g, off, kind, start, count)
    requires Makes(g, off, kind)
    requires objects != null ==> MemoOk(g, objects.items)
    requires path != null ==> path.items == above + {off} && PathOk(g, u, above, off, depth) && off !in above
    requires path == null ==> depth <= 15
    modifies objects, path
    ensures Results(g, off, objects != null, place, r)
    ensures objects != null ==> MemoOk(g, objects.items)
    ensures path != null && r.Some? ==> path.items == old(path.items)
    decreases if path == null then 16 - depth else 0, if path == null then {} else u - path.items, 4
  {
    ghost var refs := g(off).refs;
    DecodedStep(g, off);
    assert refs[0..] == refs;
    AllRefsFrom(doc, Targets(doc), start, refs, 0);
    var list := CreateChildren(doc, g, u, Targets(doc), off, place, above, kind, start, count, option, objects, path,
                               depth);
    if list.None? {
      return None;
    }
    AllChildrenMade(g, refs, kind, objects != null, place, list.value);
    MadeBranch(kind, DecodedAll(g, refs), objects != null, place);
    return Some(Assemble(kind, list.value));
  }

  /** Where the reference at each place of the file leads. */
  ghost function Targets(doc: Doc): nat -> nat
    requires ValidDoc(doc)
  {
    (ptr: nat) => OffsetOfRef(doc, ptr)
  }

  ghost predicate TargetsIn(doc: Doc, to: nat -> nat) {
    ValidDoc(doc) && forall ptr: nat {:trigger OffsetOfRef(doc, ptr)} :: to(ptr) == OffsetOfRef(doc, ptr)
  }

  /** The references from index `idx` on lie at `ptr`, `w` bytes each. */
  ghost predicate RefsFrom(to: nat -> nat, w: nat, ptr: nat, refs: seq<nat>, idx: nat)
    requires idx <= |refs|
    decreases |refs| - idx
  {
    idx == |refs| || (to(ptr) == refs[idx] && RefsFrom(to, w, ptr + w, refs, idx + 1))
  }

  lemma {:induction false} AllRefsFrom(doc: Doc, to: nat -> nat, ptr: nat, refs: seq<nat>, idx: nat)
    requires TargetsIn(doc, to) && idx <= |refs| && ReadRefs(doc, ptr, |refs| - idx) == refs[idx..]
    ensures RefsFrom(to, doc.t.objectRefSize, ptr, refs, idx)
    decreases |refs| - idx
  {
    if idx < |refs| {
      assert to(ptr) == OffsetOfRef(doc, ptr);
      assert refs[idx..][0] == refs[idx] && refs[idx..][1..] == refs[idx + 1..];
      AllRefsFrom(doc, to, ptr + doc.t.objectRefSize, refs, idx + 1);
    }
  }

  method ReadRef(doc: Doc, ghost g: Graph<Tree>, ghost u: set<nat>, ghost to: nat -> nat, ptr: nat) returns (child: nat)
    requires Describes(g, u, doc) && TargetsIn(doc, to)
    ensures child == to(ptr) && Known(u, child)
  {
    child := OffsetOfRef(doc, ptr);
  }

  /** Reference `i` leads to a tree of which `v` is made; as a key it must be primitive. */
  ghost predicate ChildMade(g: Graph<Tree>, refs: seq<nat>, kind: Kind, memo: bool, place: seq<nat>, i: nat, v: Value)
    requires i < |refs|
  {
    && Results(g, refs[i], memo, place + [i], Some(v))
    && (kind == DictKind && i < |refs| / 2 ==> Decoded(g, refs[i]).value.Atom?)
  }

  ghost predicate FirstMade(g: Graph<Tree>, refs: seq<nat>, kind: Kind, memo: bool, place: seq<nat>, vals: seq<Value>) {
    |vals| <= |refs| && forall i | 0 <= i < |vals| :: ChildMade(g, refs, kind, memo, place, i, vals[i])
  }

  lemma OneMoreMade(g: Graph<Tree>, refs: seq<nat>, kind: Kind, memo: bool, place: seq<nat>, vals: seq<Value>, v: Value)
    requires FirstMade(g, refs, kind, memo, place, vals) && |vals| < |refs| &&
             ChildMade(g, refs, kind, memo, place, |vals|, v)
    ensures FirstMade(g, refs, kind, memo, place, vals + [v])
  {
  }

  /** When all children are made they can be joined. */
  lemma AllChildrenMade(g: Graph<Tree>, refs: seq<nat>, kind: Kind, memo: bool, place: seq<nat>, vals: seq<Value>)
    requires FirstMade(g, refs, kind, memo, place, vals) && |vals| == |refs| && (kind == DictKind ==> |refs| % 2 == 0)
    ensures AllDecoded(g, refs) && CanJoin(kind, DecodedAll(g, refs)) &&
            vals == AllMade(DecodedAll(g, refs), memo, place)
  {
    forall i | 0 <= i < |refs|
      ensures Decoded(g, refs[i]).Some? && vals[i] == Made(Decoded(g, refs[i]).value, memo, place + [i])
    {
      assert ChildMade(g, refs, kind, memo, place, i, vals[i]);
    }
    forall i | kind == DictKind && 0 <= i < |refs| / 2 ensures DecodedAll(g, refs)[i].Atom? {
      assert ChildMade(g, refs, kind, memo, place, i, vals[i]);
    }
  }

  ghost predicate CannotJoin(g: Graph<Tree>, refs: seq<nat>, kind: Kind) {
    AllDecoded(g, refs) ==> !CanJoin(kind, DecodedAll(g, refs))
  }

  /** A child that fails, or a key that is not primitive, makes the container fail. */
  lemma BadChild(g: Graph<Tree>, refs: seq<nat>, kind: Kind, i: nat)
    requires i < |refs|
    requires Decoded(g, refs[i]).None? || (kind == DictKind && i < |refs| / 2 && Decoded(g, refs[i]).value.Branch?)
    ensures CannotJoin(g, refs, kind)
  {
    if AllDecoded(g, refs) {
      assert DecodedAll(g, refs)[i].Branch?;
    }
  }

  /** The children of a container, in order; `None` as soon as one fails or a key is not primitive. */
  method CreateChildren(doc: Doc, ghost g: Graph<Tree>, ghost u: set<nat>, ghost to: nat -> nat, ghost off: nat,
                        place: seq<nat>, ghost above: set<nat>, kind: Kind, start: nat, count: nat,
                        option: Mutability, objects: ObjectTable?, path: PathSet?, depth: nat)
    returns (list: Option<seq<Value>>)
    requires Describes(g, u, doc) && TargetsIn(doc, to) && off in u && g(off).Node? && |g(off).refs| == count
    requires RefsFrom(to, doc.t.objectRefSize, start, g(off).refs, 0)
    requires objects != null ==> MemoOk(g, objects.items)
    requires path != null ==> path.items == above + {off} && PathOk(g, u, above, off, depth) && off !in above
    requires path == null ==> depth <= 15
    modifies objects, path
    ensures list.Some? ==> |list.value| == count && FirstMade(g, g(off).refs, kind, objects != null, place, list.value)
    ensures list.None? ==> CannotJoin(g, g(off).refs, kind)
    ensures objects != null ==> MemoOk(g, objects.items)
    ensures path != null && list.Some? ==> path.items == old(path.items)
    decreases if path == null then 16 - depth else 0, if path == null then {} else u - path.items, 3
  {
    ghost var refs := g(off).refs;
    var vals: seq<Value> := [];
    var ptr: nat := start;
    var idx: nat := 0;
    while idx < count
      invariant |vals| == idx <= count && RefsFrom(to, doc.t.objectRefSize, ptr, refs, idx)
      invariant path != null ==> path.items == above + {off}
      invariant objects != null ==> MemoOk(g, objects.items)
      invariant FirstMade(g, refs, kind, objects != null, place, vals)
    {
      var child := ReadRef(doc, g, u, to, ptr);
      var pl := CreateChild(doc, g, u, off, place, above, kind, refs, child, idx, count, option, objects, path, depth);
      if pl.None? {
        return None;
      }
      OneMoreMade(g, refs, kind, objects != null, place, vals, pl.value);
      vals := vals + [pl.value];
      ptr := ptr + doc.t.objectRefSize;
      idx := idx + 1;
    }
    return Some(vals);
  }

  /** Child `idx`. */
  method CreateChild(doc: Doc, ghost g: Graph<Tree>, ghost u: set<nat>, ghost off: nat, place: seq<nat>,
                     ghost above: set<nat>, kind: Kind, ghost refs: seq<nat>, child: nat, idx: nat, count: nat,
                     option: Mutability, objects: ObjectTable?, path: PathSet?, depth: nat)
    returns (pl: Option<Value>)
    requires Describes(g, u, doc) && off in u && refs == Refs(g, off) && idx < count == |refs| && child == refs[idx] &&
             Known(u, child)
    requires objects != null ==> MemoOk(g, objects.items)
    requires path != null ==> path.items == above + {off} && PathOk(g, u, above, off, depth) && off !in above
    requires path == null ==> depth <= 15
    modifies objects, path
    ensures pl.Some? ==> ChildMade(g, refs, kind, objects != null, place, idx, pl.value)
    ensures pl.None? ==> CannotJoin(g, refs, kind)
    ensures objects != null ==> MemoOk(g, objects.items)
    ensures path != null && pl.Some? ==> path.items == old(path.items)
    decreases if path == null then 16 - depth else 0, if path == null then {} else u - path.items, 2
  {
    if path != null {
      PathGrows(g, u, above, off, child, depth);
    }
    pl := CreateObject(doc, g, u, child, place + [idx], option, objects, path, depth + 1);
    if pl.None? || (kind == DictKind && idx < count / 2 && !pl.value.Primitive()) {
      BadChild(g, refs, kind, idx);
      return None;
    }
  }

  // ----- Whole files -----

  /** The tree below the top object of a file, if it has one. */
  ghost function TreeOf(bytes: seq<byte>): Option<Tree> {
    if TopLevelOk(bytes) then
      var doc := Doc(bytes, TrailerOf(bytes));
      Decoded(GraphOf(doc), OffsetAt(doc, doc.t.topObject))
    else None
  }

  /** The property list that a file holds, read with a memo table or without. */
  ghost function Parse(bytes: seq<byte>, memo: bool): Option<Value> {
    match TreeOf(bytes) case None => None case Some(t) => Some(Made(t, memo, []))
  }

  method TryParse(bytes: seq<byte>, option: Mutability, memo: bool) returns (r: Option<Value>)
    requires |bytes| < TWO64
    ensures r == Parse(bytes, memo)
  {
    var top := GetTopLevelInfo(bytes);
    if top.None? {
      return None;
    }
    var (doc, off) := top.value;
    ghost var g, u := GraphOf(doc), Universe(doc);
    GraphDescribes(doc);
    assert off in u;
    var objects: ObjectTable? := null;
    if memo {
      objects := new ObjectTable();
    }
    r := CreateObject(doc, g, u, off, [], option, objects, null, 0);
  }

  /** A file whose top object reaches a cycle of references does not parse. */
  lemma CyclicFileFails(bytes: seq<byte>, x: nat, memo: bool)
    requires TopLevelOk(bytes)
    requires var doc := Doc(bytes, TrailerOf(bytes));
             var top := OffsetAt(doc, doc.t.topObject);
             (top == x || Above(GraphOf(doc), top, x)) && Above(GraphOf(doc), x, x)
    ensures Parse(bytes, memo).None?
  {
    var doc := Doc(bytes, TrailerOf(bytes));
    CycleFails(GraphOf(doc), OffsetAt(doc, doc.t.topObject), x);
  }
}
