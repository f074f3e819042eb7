/** Inputs at which properties that one might expect of the reader and the writer fail. */
module PlistExamples {
  import opened Bytes
  import opened Plist
  import opened PlistFlatten
  import opened PlistFile
  import opened PlistWriter
  import opened PlistReader
  import opened PlistObjects
  import opened RefGraph
  import opened PlistDecode
  import opened PlistIdentity
  import opened PlistRoundTrip

  // ----- An integer that does not come back -----

  ghost predicate OneLeaf(st: Store, rank: map<Id, nat>, v: Value) {
    && st == map[0 := Leaf(v)] && rank == map[0 := 0]
    && LeafOk(v) && !v.Null? && !v.Uid? && |LeafBytes(v)| < 100
  }

  lemma OneLeafAcyclic(st: Store, rank: map<Id, nat>, v: Value)
    requires OneLeaf(st, rank, v)
    ensures Acyclic(st, rank) && Unfold(st, rank, 0) == v
  {
    assert NodeBelow(st, rank, 0);
  }

  lemma OneLeafListed(st: Store, rank: map<Id, nat>, v: Value)
    requires OneLeaf(st, rank, v) && Acyclic(st, rank)
    ensures Flatten(st, rank, 0).list == [0]
  {
    assert st[0].Children() == [];
    var entered := Enter(EMPTY, 0, Uniqued(st[0]));
    assert Visit(st, rank, 0, EMPTY) == VisitAll(st, rank, [], 0, entered) == entered;
  }

  /** A store with a single primitive in it. */
  lemma OneLeafShort(st: Store, rank: map<Id, nat>, v: Value)
    requires OneLeaf(st, rank, v) && Acyclic(st, rank)
    ensures Short(st, Flatten(st, rank, 0))
  {
    var f := Flatten(st, rank, 0);
    OneLeafListed(st, rank, v);
    FlattenCorrect(st, rank, 0);
    var parts := Encodings(st, f);
    assert parts[0] == LeafBytes(v);
    ConcatNext(parts, 0);
    assert parts[..0] == [] && parts[..1] == parts;
  }

  lemma OneLeafComesBack(st: Store, rank: map<Id, nat>, v: Value, memo: bool)
    requires OneLeaf(st, rank, v) && OneLeaf(Truncated(st), rank, AsRead(v)) && !AsRead(v).Uid?
    ensures Acyclic(st, rank) && Short(st, Flatten(st, rank, 0)) && Unfold(st, rank, 0) == v
    ensures var parts := Encodings(st, Flatten(st, rank, 0));
            Fits(parts) && Parse(FileOf(parts), memo) == Some(AsRead(v))
  {
    OneLeafAcyclic(st, rank, v);
    OneLeafShort(st, rank, v);
    OneLeafAcyclic(Truncated(st), rank, AsRead(v));
    TreeComesBack(st, rank, 0);
  }

  /** The 128-bit integer 2^64 is written as a file that parses to 0. */
  lemma WideIntLost(st: Store, rank: map<Id, nat>, memo: bool)
    requires st == map[0 := Leaf(WideInt(1, 0))] && rank == map[0 := 0]
    ensures Acyclic(st, rank) && Short(st, Flatten(st, rank, 0)) && Unfold(st, rank, 0) == WideInt(1, 0)
    ensures var parts := Encodings(st, Flatten(st, rank, 0));
            Fits(parts) && Parse(FileOf(parts), memo) == Some(WideInt(0, 0))
  {
    OneLeafComesBack(st, rank, WideInt(1, 0), memo);
  }

  // ----- A UID that is a key twice -----

  /** A dictionary with two entries whose keys are one UID object, that object, true and false. */
  const TWICE: seq<seq<byte>> := [[0xD2, 1, 1, 2, 3], [0x80, 5], [0x09], [0x08]]

  lemma TwiceFits()
    ensures Fits(TWICE) && Starts(TWICE) == [8, 13, 15, 16] && TrailerFor(TWICE).objectRefSize == 1
  {
    assert TWICE[..0] == [] && TWICE[..4] == TWICE;
    ConcatNext(TWICE, 0);
    ConcatNext(TWICE, 1);
    ConcatNext(TWICE, 2);
    ConcatNext(TWICE, 3);
  }

  lemma OneRef(ids: seq<Id>, table: map<Id, nat>, rest: seq<byte>)
    requires ids != [] && (forall c | c in ids :: c in table) && table[ids[0]] < 256 &&
             RefBytes(ids[1..], table, 1) == rest
    ensures RefBytes(ids, table, 1) == [table[ids[0]]] + rest
  {
    assert BigEndian(table[ids[0]], 1) == [table[ids[0]]];
  }

  lemma FourRefs(ids: seq<Id>, table: map<Id, nat>)
    requires ids == [1, 1, 2, 3] && table == map[1 := 1, 2 := 2, 3 := 3]
    ensures RefBytes(ids, table, 1) == [1, 1, 2, 3]
  {
    OneRef(ids[3..], table, []);
    OneRef(ids[2..], table, [3]);
    OneRef(ids[1..], table, [2, 3]);
    OneRef(ids, table, [1, 2, 3]);
  }

  lemma FourOffsets(table: map<Id, nat>, offs: seq<nat>)
    requires table == map[1 := 1, 2 := 2, 3 := 3] && |offs| == 4
    ensures RefOffsets([1, 1, 2, 3], table, offs) == [offs[1], offs[1], offs[2], offs[3]]
  {
  }

  lemma TwiceTop(parts: seq<seq<byte>>)
    requires Fits(parts) && |parts| == 4 && ValidDoc(DocOf(parts)) && TrailerFor(parts).objectRefSize == 1
    requires parts[0] == [0xD2, 1, 1, 2, 3] && Start(parts, 0) == 8
    ensures var c, offs := CellAt(DocOf(parts), 8), Starts(parts);
            c.Node? && c.refs == [offs[1], offs[1], offs[2], offs[3]] && forall ts :: c.make(ts) == Join(DictKind, ts)
  {
    PartReadable(parts, 0);
    FileHoldsStarts(parts);
    var table: map<nat, nat> := map[1 := 1, 2 := 2, 3 := 3];
    FourRefs([1, 1, 2, 3], table);
    FourOffsets(table, Starts(parts));
    assert parts[0] == HeadBytes(0xD0, 2) + RefBytes([1, 1, 2, 3], table, 1);
    ContainerCell(DocOf(parts), Starts(parts), 8, 0xD0, 2, [1, 1, 2, 3], table);
  }

  lemma LeafCell(parts: seq<seq<byte>>, i: nat, v: Value)
    requires Fits(parts) && ValidDoc(DocOf(parts)) && i < |parts| && LeafOk(v) && !v.Null? && parts[i] == LeafBytes(v)
    ensures CellAt(DocOf(parts), Start(parts, i))
            == Done(Atom(if v.Uid? then Uid(v.uid, Object(Start(parts, i))) else AsRead(v)))
  {
    PartReadable(parts, i);
    LeafInverts(DocOf(parts), Start(parts, i), v);
  }

  lemma TwiceLeaves(parts: seq<seq<byte>>)
    requires Fits(parts) && ValidDoc(DocOf(parts)) && |parts| == 4 && Starts(parts) == [8, 13, 15, 16]
    requires parts[1] == [0x80, 5] && parts[2] == [0x09] && parts[3] == [0x08]
    ensures CellAt(DocOf(parts), 13) == Done(Atom(Uid(5, Object(13))))
    ensures CellAt(DocOf(parts), 15) == Done(Atom(Bool(true)))
    ensures CellAt(DocOf(parts), 16) == Done(Atom(Bool(false)))
  {
    var offs := Starts(parts);
    assert offs[1] == 13 && offs[2] == 15 && offs[3] == 16;
    LeafCell(parts, 1, Uid(5, Object(13)));
    LeafCell(parts, 2, Bool(true));
    LeafCell(parts, 3, Bool(false));
  }

  function TwoEntriesTree(k: PrimitiveValue, v: PrimitiveValue, w: PrimitiveValue): Tree {
    Branch(DictKind, [Atom(k), Atom(k), Atom(v), Atom(w)])
  }

  lemma TwoEntries(g: Graph<Tree>, top: nat, key: nat, x: nat, y: nat, k: PrimitiveValue, v: PrimitiveValue,
                   w: PrimitiveValue)
    requires g(top).Node? && g(top).refs == [key, key, x, y] && forall ts :: g(top).make(ts) == Join(DictKind, ts)
    requires g(key) == Done(Atom(k)) && g(x) == Done(Atom(v)) && g(y) == Done(Atom(w))
    ensures Decoded(g, top) == Some(TwoEntriesTree(k, v, w))
  {
    DecodedStep(g, key);
    DecodedStep(g, x);
    DecodedStep(g, y);
    DecodedStep(g, top);
    assert DecodedAll(g, g(top).refs) == [Atom(k), Atom(k), Atom(v), Atom(w)];
  }

  lemma TwiceTree(parts: seq<seq<byte>>)
    requires Fits(parts) && |parts| == 4 && Starts(parts) == [8, 13, 15, 16] && TrailerFor(parts).objectRefSize == 1
    requires parts[0] == [0xD2, 1, 1, 2, 3] && parts[1] == [0x80, 5] && parts[2] == [0x09] && parts[3] == [0x08]
    ensures TreeOf(FileOf(parts)) == Some(TwoEntriesTree(Uid(5, Object(13)), Bool(true), Bool(false)))
  {
    FileAccepted(parts);
    assert Start(parts, 0) == Starts(parts)[0];
    TwiceTop(parts);
    TwiceLeaves(parts);
    TwoEntries(GraphOf(DocOf(parts)), 8, 13, 15, 16, Uid(5, Object(13)), Bool(true), Bool(false));
  }

  /** Two keys, kept once if they are equal. */
  lemma TwoKeysKept(ks: seq<Value>)
    requires |ks| == 2
    ensures Kept(ks, 2) == if Equal(ks[0], ks[1]) then [0] else [0, 1]
  {
    assert Repeats(ks, 1) <==> Equal(ks[0], ks[1]);
    assert !Repeats(ks, 0) && Kept(ks, 0) == [] && Kept(ks, 1) == [0];
  }

  lemma Assembled(ks: seq<Value>, vs: seq<Value>)
    requires |ks| == |vs| == 2
    ensures Assemble(DictKind, ks + vs) == Dict(Pick(ks, Kept(ks, 2)), Pick(vs, Kept(ks, 2)))
  {
    assert (ks + vs)[..2] == ks && (ks + vs)[2..] == vs;
  }

  lemma OneKey(ks: seq<Value>, vs: seq<Value>)
    requires |ks| == |vs| == 2 && Equal(ks[0], ks[1])
    ensures Assemble(DictKind, ks + vs) == Dict([ks[0]], [vs[0]])
  {
    Assembled(ks, vs);
    TwoKeysKept(ks);
  }

  lemma BothKeys(ks: seq<Value>, vs: seq<Value>)
    requires |ks| == |vs| == 2 && !Equal(ks[0], ks[1])
    ensures Assemble(DictKind, ks + vs) == Dict(ks, vs)
  {
    Assembled(ks, vs);
    TwoKeysKept(ks);
    assert Pick(ks, [0, 1]) == ks && Pick(vs, [0, 1]) == vs;
  }

  lemma TwoUidsShared(cs: seq<Tree>, k: PrimitiveValue)
    requires |cs| == 4 && cs[0] == cs[1] == Atom(k) && cs[2].Atom? && cs[3].Atom?
    ensures Shared(Branch(DictKind, cs)) == Dict([k], [cs[2].value])
  {
    BothMade(DictKind, cs, []);
    var ks, vs := [k, k], [cs[2].value, cs[3].value];
    assert SharedAll(cs) == ks + vs;
    OneKey(ks, vs);
  }

  lemma SeparateAtom(t: Tree, i: nat)
    requires t.Atom?
    ensures Separate(t, [] + [i]) == if t.value.Uid? then Uid(t.value.uid, Occurrence([i])) else t.value
  {
    assert [] + [i] == [i];
  }

  lemma TwoUidsSeparate(cs: seq<Tree>, ks: seq<Value>, vs: seq<Value>, u: nat, at: Address)
    requires |cs| == 4 && cs[0] == cs[1] == Atom(Uid(u, at)) && cs[2].Atom? && cs[3].Atom? && !cs[2].value.Uid? &&
             !cs[3].value.Uid?
    requires ks == [Uid(u, Occurrence([0])), Uid(u, Occurrence([1]))] && vs == [cs[2].value, cs[3].value]
    ensures Separate(Branch(DictKind, cs), []) == Dict(ks, vs)
  {
    BothMade(DictKind, cs, []);
    SeparateAtom(cs[0], 0);
    SeparateAtom(cs[1], 1);
    SeparateAtom(cs[2], 2);
    SeparateAtom(cs[3], 3);
    assert SeparateAll(cs, []) == ks + vs;
    assert [0][0] != [1][0];
    BothKeys(ks, vs);
  }

  /**
   With the memo table the dictionary has one entry, because its keys are the same object and the
   second is not added. Without it the keys are two objects, and there are two entries.
   */
  lemma OneKeyOrTwo()
    ensures Fits(TWICE)
    ensures Parse(FileOf(TWICE), true) == Some(Dict([Uid(5, Object(13))], [Bool(true)]))
    ensures Parse(FileOf(TWICE), false)
            == Some(Dict([Uid(5, Occurrence([0])), Uid(5, Occurrence([1]))], [Bool(true), Bool(false)]))
  {
    TwiceFits();
    TwiceTree(TWICE);
    TwiceRead(FileOf(TWICE), TreeOf(FileOf(TWICE)).value.children);
  }

  lemma TwiceRead(file: seq<byte>, cs: seq<Tree>)
    requires TreeOf(file) == Some(Branch(DictKind, cs)) && |cs| == 4
    requires cs[0] == cs[1] == Atom(Uid(5, Object(13))) && cs[2] == Atom(Bool(true)) && cs[3] == Atom(Bool(false))
    ensures Parse(file, true) == Some(Dict([Uid(5, Object(13))], [Bool(true)]))
    ensures Parse(file, false)
            == Some(Dict([Uid(5, Occurrence([0])), Uid(5, Occurrence([1]))], [Bool(true), Bool(false)]))
  {
    TwoUidsShared(cs, Uid(5, Object(13)));
    TwoUidsSeparate(cs, [Uid(5, Occurrence([0])), Uid(5, Occurrence([1]))], [Bool(true), Bool(false)], 5, Object(13));
  }
}
