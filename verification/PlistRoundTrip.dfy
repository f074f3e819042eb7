/** What the writer writes, the reader reads back. */
module PlistRoundTrip {
  import opened Bytes
  import opened Plist
  import opened PlistFlatten
  import opened PlistFile
  import opened PlistWriter
  import opened PlistReader
  import opened PlistObjects
  import opened RefGraph
  import opened PlistDecode

  // ----- Containers read back -----

  ghost function RefOffsets(ids: seq<Id>, table: map<Id, nat>, offs: seq<nat>): (r: seq<nat>)
    requires forall c | c in ids :: c in table && table[c] < |offs|
    ensures |r| == |ids|
  {
    seq(|ids|, i requires 0 <= i < |ids| => offs[table[ids[i]]])
  }

  /** The offset table of the file holds `offs`. */
  ghost predicate TableHolds(doc: Doc, offs: seq<nat>) {
    && ValidDoc(doc) && |offs| == doc.t.numObjects < TWO64 && |offs| <= Pow256(doc.t.objectRefSize)
    && (forall i | 0 <= i < |offs| :: OffsetAt(doc, i) == offs[i])
  }

  lemma OffsetOfRefInverts(doc: Doc, offs: seq<nat>, ptr: nat, ref: nat)
    requires TableHolds(doc, offs) && 8 <= ptr && ref < |offs|
    requires At(doc, ptr, BigEndian(ref, doc.t.objectRefSize))
    ensures OffsetOfRef(doc, ptr) == offs[ref]
  {
    AtSlice(doc, ptr, BigEndian(ref, doc.t.objectRefSize));
    SizedRoundTrip(ref, doc.t.objectRefSize);
  }

  /** From `ptr` on lie the table indices of `ids`. */
  ghost predicate RefsLie(doc: Doc, ptr: nat, ids: seq<Id>, table: map<Id, nat>)
    requires ValidDoc(doc) && forall c | c in ids :: c in table
    decreases |ids|
  {
    ids == [] ||
    (At(doc, ptr, BigEndian(table[ids[0]], doc.t.objectRefSize)) &&
     RefsLie(doc, ptr + doc.t.objectRefSize, ids[1..], table))
  }

  lemma {:induction false} RefBytesLie(doc: Doc, ptr: nat, ids: seq<Id>, table: map<Id, nat>)
    requires ValidDoc(doc) && forall c | c in ids :: c in table
    requires At(doc, ptr, RefBytes(ids, table, doc.t.objectRefSize))
    ensures RefsLie(doc, ptr, ids, table)
    decreases |ids|
  {
    if ids != [] {
      var w := doc.t.objectRefSize;
      AtSplit(doc, ptr, BigEndian(table[ids[0]], w), RefBytes(ids[1..], table, w));
      RefBytesLie(doc, ptr + w, ids[1..], table);
    }
  }

  /** Read one after the other from `ptr`, the references lead to the offsets of `ids`. */
  ghost predicate RefsLead(doc: Doc, offs: seq<nat>, ptr: nat, ids: seq<Id>, table: map<Id, nat>)
    requires ValidDoc(doc) && forall c | c in ids :: c in table && table[c] < |offs|
    decreases |ids|
  {
    ids == [] ||
    (OffsetOfRef(doc, ptr) == offs[table[ids[0]]] && RefsLead(doc, offs, ptr + doc.t.objectRefSize, ids[1..], table))
  }

  lemma {:induction false} RefsInvert(doc: Doc, offs: seq<nat>, ptr: nat, ids: seq<Id>, table: map<Id, nat>)
    requires TableHolds(doc, offs) && 8 <= ptr
    requires forall c | c in ids :: c in table && table[c] < |offs|
    requires RefsLie(doc, ptr, ids, table)
    ensures RefsLead(doc, offs, ptr, ids, table)
    decreases |ids|
  {
    if ids != [] {
      OffsetOfRefInverts(doc, offs, ptr, table[ids[0]]);
      RefsInvert(doc, offs, ptr + doc.t.objectRefSize, ids[1..], table);
    }
  }

  lemma {:induction false} ReadRefsInverts(doc: Doc, offs: seq<nat>, ptr: nat, ids: seq<Id>, table: map<Id, nat>)
    requires ValidDoc(doc) && forall c | c in ids :: c in table && table[c] < |offs|
    requires RefsLead(doc, offs, ptr, ids, table)
    ensures ReadRefs(doc, ptr, |ids|) == RefOffsets(ids, table, offs)
    decreases |ids|
  {
    if ids != [] {
      ReadRefsInverts(doc, offs, ptr + doc.t.objectRefSize, ids[1..], table);
      assert RefOffsets(ids, table, offs) == [offs[table[ids[0]]]] + RefOffsets(ids[1..], table, offs);
    }
  }

  lemma {:induction false} RefBytesLength(ids: seq<Id>, table: map<Id, nat>, w: nat)
    requires forall c | c in ids :: c in table
    ensures |RefBytes(ids, table, w)| == Rows(|ids|, w)
  {
    if ids != [] {
      RefBytesLength(ids[1..], table, w);
    }
  }

  /** A container read where it was written: its kind, its size and where its references lie. */
  lemma ContainerInverts(doc: Doc, off: nat, kind: byte, n: nat, ids: seq<Id>, table: map<Id, nat>)
    requires ValidDoc(doc) && 8 <= off && (kind == 0xA0 || kind == 0xD0) && n <= LONG_MAX
    requires |ids| == (if kind == 0xD0 then 2 * n else n) && |ids| * 8 < TWO64
    requires forall c | c in ids :: c in table
    requires At(doc, off, HeadBytes(kind, n) + RefBytes(ids, table, doc.t.objectRefSize))
    ensures var ptr := off + |HeadBytes(kind, n)|;
            && ShapeAt(doc, off) == Some(Container(if kind == 0xA0 then ArrayKind else DictKind, ptr, |ids|))
            && At(doc, ptr, RefBytes(ids, table, doc.t.objectRefSize))
  {
    var refs := RefBytes(ids, table, doc.t.objectRefSize);
    ReadCountInverts(doc, off, kind, n, refs);
    RefBytesLength(ids, table, doc.t.objectRefSize);
  }

  // ----- The graph in the file is the graph that was written -----

  /** The store as the reader will know it. */
  function Truncated(st: Store): Store {
    map id | id in st :: if st[id].Leaf? then Leaf(AsRead(st[id].value)) else st[id]
  }

  lemma TruncatedAcyclic(st: Store, rank: map<Id, nat>)
    requires Acyclic(st, rank)
    ensures Acyclic(Truncated(st), rank)
  {
    var t := Truncated(st);
    forall id | id in t ensures NodeBelow(t, rank, id) {
      assert NodeBelow(st, rank, id);
      assert t[id].Children() == st[id].Children();
      assert forall c | Leaflike(st, c) :: Leaflike(t, c);
    }
  }

  /** A UID that lay at one address lies at another. */
  function MovedLeaf(v: PrimitiveValue, to: Id -> nat): PrimitiveValue {
    if v.Uid? && v.at.Object? then Uid(v.uid, Object(to(v.at.id))) else v
  }

  ghost function MovedTree(t: Tree, to: Id -> nat): Tree {
    match t
    case Atom(v) => Atom(MovedLeaf(v, to))
    case Branch(kind, cs) => Branch(kind, seq(|cs|, i requires 0 <= i < |cs| => MovedTree(cs[i], to)))
  }

  /** Ids that have a place in `offs`, together with their children. */
  ghost predicate Placed(st: Store, table: map<Id, nat>, offs: seq<nat>) {
    && (forall id | id in table :: id in st && table[id] < |offs|)
    && (forall id, c | id in table && c in st[id].Children() :: c in table)
  }

  /** Where objects lie in the file. */
  ghost function Places(table: map<Id, nat>, offs: seq<nat>): Id -> nat {
    (id: Id) => if id in table && table[id] < |offs| then offs[table[id]] else 0
  }

  /** At the offset of `id` the graph shows the node of `id`. */
  ghost predicate ShowsNode(g: Graph<Tree>, st: Store, table: map<Id, nat>, offs: seq<nat>, to: Id -> nat, id: Id)
    requires Placed(st, table, offs) && id in table
  {
    var c := g(offs[table[id]]);
    match st[id]
    case Leaf(v) => v.Primitive() && c == Done(Atom(MovedLeaf(AsRead(v), to)))
    case ArrayNode(es) =>
      c.Node? && c.refs == RefOffsets(st[id].Children(), table, offs) && forall ts :: c.make(ts) == Join(ArrayKind, ts)
    case DictNode(ks, vs) =>
      c.Node? && c.refs == RefOffsets(st[id].Children(), table, offs) && forall ts :: c.make(ts) == Join(DictKind, ts)
  }

  ghost predicate ShowsStore(g: Graph<Tree>, st: Store, table: map<Id, nat>, offs: seq<nat>, to: Id -> nat)
    requires Placed(st, table, offs)
  {
    forall id | id in table :: ShowsNode(g, st, table, offs, to, id)
  }

  /** Then it decodes to the tree of the object graph, with UIDs at their places in the file. */
  lemma {:induction false} GraphDecodes(g: Graph<Tree>, st: Store, rank: map<Id, nat>, table: map<Id, nat>,
                                        offs: seq<nat>, to: Id -> nat, id: Id)
    requires Acyclic(st, rank) && Acyclic(Truncated(st), rank)
    requires Placed(st, table, offs) && ShowsStore(g, st, table, offs, to) && id in table
    ensures Decoded(g, offs[table[id]]) == Some(MovedTree(TreeAt(Truncated(st), rank, id), to))
    decreases rank[id]
  {
    var t, off, ids := Truncated(st), offs[table[id]], st[id].Children();
    assert ShowsNode(g, st, table, offs, to, id);
    assert NodeBelow(t, rank, id) && t[id].Children() == ids;
    DecodedStep(g, off);
    if !st[id].Leaf? {
      var refs := g(off).refs;
      forall i | 0 <= i < |ids| ensures Decoded(g, refs[i]) == Some(MovedTree(TreeAt(t, rank, ids[i]), to)) {
        GraphDecodes(g, st, rank, table, offs, to, ids[i]);
      }
      ChildrenDecode(g, refs, t, rank, ids, rank[id], to);
      ChildrenJoin(t, rank, id, to);
    }
  }

  ghost function MovedTrees(ts: seq<Tree>, to: Id -> nat): (r: seq<Tree>)
    ensures |r| == |ts|
  {
    seq(|ts|, i requires 0 <= i < |ts| => MovedTree(ts[i], to))
  }

  lemma ChildrenDecode(g: Graph<Tree>, refs: seq<nat>, st: Store, rank: map<Id, nat>, ids: seq<Id>, bound: nat,
                       to: Id -> nat)
    requires Acyclic(st, rank) && Below(st, rank, ids, bound) && |refs| == |ids|
    requires forall i | 0 <= i < |ids| :: Decoded(g, refs[i]) == Some(MovedTree(TreeAt(st, rank, ids[i]), to))
    ensures AllDecoded(g, refs) && DecodedAll(g, refs) == MovedTrees(TreesAt(st, rank, ids, bound), to)
  {
  }

  lemma ChildrenJoin(st: Store, rank: map<Id, nat>, id: Id, to: Id -> nat)
    requires Acyclic(st, rank) && id in st && !st[id].Leaf? && NodeBelow(st, rank, id)
    ensures Join(if st[id].ArrayNode? then ArrayKind else DictKind,
                 MovedTrees(TreesAt(st, rank, st[id].Children(), rank[id]), to))
         == Some(MovedTree(TreeAt(st, rank, id), to))
  {
    var ts := TreesAt(st, rank, st[id].Children(), rank[id]);
    if st[id].DictNode? {
      forall i | 0 <= i < |st[id].keys| ensures ts[i].Atom? {
        KeyAtom(st, rank, id, i);
      }
    }
    MovedBranch(if st[id].ArrayNode? then ArrayKind else DictKind, ts, to);
  }

  lemma MovedBranch(kind: Kind, ts: seq<Tree>, to: Id -> nat)
    ensures MovedTree(Branch(kind, ts), to) == Branch(kind, MovedTrees(ts, to))
  {
  }

  lemma KeyAtom(st: Store, rank: map<Id, nat>, id: Id, i: nat)
    requires Acyclic(st, rank) && id in st && st[id].DictNode? && NodeBelow(st, rank, id) && i < |st[id].keys|
    ensures TreesAt(st, rank, st[id].Children(), rank[id])[i] == Atom(st[st[id].keys[i]].value)
  {
    var k := st[id].keys[i];
    assert st[id].Children()[i] == k;
    assert Leaflike(st, k) && NodeBelow(st, rank, k);
  }

  // ----- The file of a flattened graph -----

  ghost function Starts(parts: seq<seq<byte>>): (offs: seq<nat>)
    ensures |offs| == |parts|
  {
    seq(|parts|, i requires 0 <= i < |parts| => Start(parts, i))
  }

  lemma FileHoldsStarts(parts: seq<seq<byte>>)
    requires Fits(parts)
    ensures TableHolds(DocOf(parts), Starts(parts))
  {
    FileValid(parts);
    var doc, offs := DocOf(parts), Starts(parts);
    forall i | 0 <= i < |offs| ensures OffsetAt(doc, i) == offs[i] {
      OffsetAtInverts(parts, i);
    }
  }

  lemma PartReadable(parts: seq<seq<byte>>, i: nat)
    requires Fits(parts) && i < |parts|
    ensures ValidDoc(DocOf(parts)) && At(DocOf(parts), Start(parts, i), parts[i])
  {
    FileValid(parts);
    FileLayout(parts);
    PartAt(FileOf(parts), parts, TrailerFor(parts).offsetIntSize, i);
  }

  lemma FlatPlaced(st: Store, f: Flat)
    requires Ready(st, f)
    ensures Placed(st, f.table, Starts(Encodings(st, f)))
  {
    forall id, c | id in f.table && c in st[id].Children() ensures c in f.table {
      assert ChildrenListed(st, f, f.list[f.table[id]]);
    }
  }

  ghost function FilePlaces(st: Store, f: Flat): Id -> nat
    requires Ready(st, f)
  {
    Places(f.table, Starts(Encodings(st, f)))
  }

  /** The object that was listed for `id` shows in the file as the node of `id`. */
  lemma FileShowsNode(st: Store, f: Flat, id: Id)
    requires Short(st, f) && Fits(Encodings(st, f)) && id in f.table
    requires Placed(st, f.table, Starts(Encodings(st, f))) && ValidDoc(DocOf(Encodings(st, f)))
    requires st[id].Leaf? && st[id].value.Uid? ==> st[id].value.at == Object(id)
    ensures ShowsNode(GraphOf(DocOf(Encodings(st, f))), st, f.table, Starts(Encodings(st, f)), FilePlaces(st, f), id)
  {
    var parts := Encodings(st, f);
    var i := f.table[id];
    assert parts[i] == Encoding(st, f, i);
    PartReadable(parts, i);
    FileHoldsStarts(parts);
    NodeShows(GraphOf(DocOf(parts)), DocOf(parts), st, f.table, Starts(parts), id);
  }

  lemma NodeShows(g: Graph<Tree>, doc: Doc, st: Store, table: map<Id, nat>, offs: seq<nat>, id: Id)
    requires TableHolds(doc, offs) && Placed(st, table, offs) && id in table && Writable(st[id])
    requires st[id].Leaf? && st[id].value.Uid? ==> st[id].value.at == Object(id)
    requires forall c | c in st[id].Children() :: c in table
    requires 8 <= offs[table[id]] && At(doc, offs[table[id]], ObjectBytes(st[id], table, doc.t.objectRefSize))
    requires g(offs[table[id]]) == CellAt(doc, offs[table[id]])
    ensures ShowsNode(g, st, table, offs, Places(table, offs), id)
  {
    var off := offs[table[id]];
    match st[id]
    case Leaf(v) =>
      LeafInverts(doc, off, v);
      CellOfLeaf(doc, off, MovedLeaf(AsRead(v), Places(table, offs)));
    case ArrayNode(es) =>
      ContainerCell(doc, offs, off, 0xA0, |es|, es, table);
    case DictNode(ks, vs) =>
      ContainerCell(doc, offs, off, 0xD0, |ks|, ks + vs, table);
  }

  lemma RefsRead(doc: Doc, offs: seq<nat>, ptr: nat, ids: seq<Id>, table: map<Id, nat>)
    requires TableHolds(doc, offs) && 8 <= ptr && (forall c | c in ids :: c in table && table[c] < |offs|)
    requires At(doc, ptr, RefBytes(ids, table, doc.t.objectRefSize))
    ensures ReadRefs(doc, ptr, |ids|) == RefOffsets(ids, table, offs)
  {
    RefBytesLie(doc, ptr, ids, table);
    RefsInvert(doc, offs, ptr, ids, table);
    ReadRefsInverts(doc, offs, ptr, ids, table);
  }

  lemma ContainerCell(doc: Doc, offs: seq<nat>, off: nat, kind: byte, n: nat, ids: seq<Id>, table: map<Id, nat>)
    requires TableHolds(doc, offs) && 8 <= off && (kind == 0xA0 || kind == 0xD0) && n <= LONG_MAX
    requires |ids| == (if kind == 0xD0 then 2 * n else n) && |ids| * 8 < TWO64
    requires forall c | c in ids :: c in table && table[c] < |offs|
    requires At(doc, off, HeadBytes(kind, n) + RefBytes(ids, table, doc.t.objectRefSize))
    ensures var c := CellAt(doc, off);
            && c.Node? && c.refs == RefOffsets(ids, table, offs)
            && forall ts :: c.make(ts) == Join(if kind == 0xA0 then ArrayKind else DictKind, ts)
  {
    var ptr := off + |HeadBytes(kind, n)|;
    ContainerInverts(doc, off, kind, n, ids, table);
    RefsRead(doc, offs, ptr, ids, table);
    CellOfContainer(doc, off, if kind == 0xA0 then ArrayKind else DictKind, ptr, |ids|);
  }

  /**
   The file written for `root` passes every check of the reader, and the tree below its top object
   is the tree below `root`, except that a 128-bit integer keeps only its low half.
   */
  lemma TreeComesBack(st: Store, rank: map<Id, nat>, root: Id)
    requires Acyclic(st, rank) && root in st && Short(st, Flatten(st, rank, root))
    ensures var f := Flatten(st, rank, root);
            && Fits(Encodings(st, f))
            && Acyclic(Truncated(st), rank)
            && TreeOf(FileOf(Encodings(st, f))) == Some(MovedTree(TreeAt(Truncated(st), rank, root), FilePlaces(st, f)))
  {
    var f := Flatten(st, rank, root);
    var parts := Encodings(st, f);
    FlattenCorrect(st, rank, root);
    TruncatedAcyclic(st, rank);
    ShortFits(st, f);
    FileAccepted(parts);
    FlatPlaced(st, f);
    var doc, offs := DocOf(parts), Starts(parts);
    forall id | id in f.table ensures ShowsNode(GraphOf(doc), st, f.table, offs, FilePlaces(st, f), id) {
      assert NodeBelow(st, rank, id);
      FileShowsNode(st, f, id);
    }
    GraphDecodes(GraphOf(doc), st, rank, f.table, offs, FilePlaces(st, f), root);
    OffsetAtInverts(parts, 0);
  }
}
