/**
 What a file parses to, object by object: the value at an offset in terms of the values at the offsets
 to which its references lead, without the graph and the trees.
 */
module PlistParsed {
  import opened Bytes
  import opened Plist
  import opened PlistReader
  import opened RefGraph
  import opened PlistDecode
  import opened PlistValues

  /** The value of the object at an offset, made at a place of the result. */
  ghost function ValueAt(doc: Doc, off: nat, memo: bool, place: seq<nat>): Option<Value>
    requires ValidDoc(doc)
  {
    match Decoded(GraphOf(doc), off) case None => None case Some(t) => Some(Made(t, memo, place))
  }

  /** Child `i` of a container whose references lie at `ptr`. */
  ghost function ChildAt(doc: Doc, ptr: nat, i: nat, memo: bool, place: seq<nat>): Option<Value>
    requires ValidDoc(doc)
  {
    ValueAt(doc, OffsetOfRef(doc, ptr + i * doc.t.objectRefSize), memo, place + [i])
  }

  /** The children are all there. */
  ghost predicate AllThere(doc: Doc, ptr: nat, count: nat, memo: bool, place: seq<nat>)
    requires ValidDoc(doc)
  {
    forall i | 0 <= i < count :: ChildAt(doc, ptr, i, memo, place).Some?
  }

  ghost predicate KeysPrimitive(doc: Doc, ptr: nat, n: nat, memo: bool, place: seq<nat>)
    requires ValidDoc(doc)
  {
    forall i | 0 <= i < n :: ChildAt(doc, ptr, i, memo, place).Some? &&
      ChildAt(doc, ptr, i, memo, place).value.Primitive()
  }

  /** The values of the children, in the order of the references. */
  ghost function ChildValues(doc: Doc, ptr: nat, count: nat, memo: bool, place: seq<nat>): (vals: seq<Value>)
    requires ValidDoc(doc) && AllThere(doc, ptr, count, memo, place)
    ensures |vals| == count && forall i | 0 <= i < count :: vals[i] == ChildAt(doc, ptr, i, memo, place).value
  {
    seq(count, i requires 0 <= i < count => ChildAt(doc, ptr, i, memo, place).value)
  }

  /** A file parses to the value of its top object. */
  lemma ParseIsTop(bytes: seq<byte>, memo: bool)
    ensures TopLevelOk(bytes) ==>
              var doc := Doc(bytes, TrailerOf(bytes));
              Parse(bytes, memo) == ValueAt(doc, OffsetAt(doc, doc.t.topObject), memo, [])
    ensures !TopLevelOk(bytes) ==> Parse(bytes, memo) == None
  {
  }

  /** A primitive is read as it is; a UID is one object where there is a memo table, and one at each place otherwise. */
  lemma PrimitiveAt(doc: Doc, off: nat, v: PrimitiveValue, memo: bool, place: seq<nat>)
    requires ValidDoc(doc) && ShapeAt(doc, off) == Some(Primitive(v))
    ensures ValueAt(doc, off, memo, place) == Some(if v.Uid? && !memo then Uid(v.uid, Occurrence(place)) else v)
  {
    CellOfLeaf(doc, off, v);
    DecodedStep(GraphOf(doc), off);
  }

  lemma UnreadableAt(doc: Doc, off: nat, memo: bool, place: seq<nat>)
    requires ValidDoc(doc) && ShapeAt(doc, off) == None
    ensures ValueAt(doc, off, memo, place) == None
  {
    DecodedStep(GraphOf(doc), off);
  }

  // ----- Containers -----

  lemma {:induction false} RefsInOrder(doc: Doc, ptr: nat, count: nat, i: nat)
    requires ValidDoc(doc) && i < count
    ensures ReadRefs(doc, ptr, count)[i] == OffsetOfRef(doc, ptr + i * doc.t.objectRefSize)
    decreases count
  {
    if i > 0 {
      RefsInOrder(doc, ptr + doc.t.objectRefSize, count - 1, i - 1);
      assert ptr + doc.t.objectRefSize + (i - 1) * doc.t.objectRefSize == ptr + i * doc.t.objectRefSize;
    }
  }

  lemma AtomMade(t: Tree, memo: bool, place: seq<nat>)
    ensures Made(t, memo, place).Primitive() <==> t.Atom?
  {
    if t.Branch? {
      MadeBranch(t.kind, t.children, memo, place);
    }
  }

  /** Child `i` in the graph and as a value. */
  lemma ChildInGraph(doc: Doc, ptr: nat, count: nat, i: nat, memo: bool, place: seq<nat>)
    requires ValidDoc(doc) && i < count
    ensures var t, v := Decoded(GraphOf(doc), ReadRefs(doc, ptr, count)[i]), ChildAt(doc, ptr, i, memo, place);
            && (t.Some? <==> v.Some?)
            && (t.Some? ==> v.value == Made(t.value, memo, place + [i]) && (v.value.Primitive() <==> t.value.Atom?))
  {
    RefsInOrder(doc, ptr, count, i);
    var t := Decoded(GraphOf(doc), ReadRefs(doc, ptr, count)[i]);
    if t.Some? {
      AtomMade(t.value, memo, place + [i]);
    }
  }

  lemma ChildrenInGraph(doc: Doc, ptr: nat, count: nat, memo: bool, place: seq<nat>)
    requires ValidDoc(doc)
    ensures var g, refs := GraphOf(doc), ReadRefs(doc, ptr, count);
            && (AllDecoded(g, refs) <==> AllThere(doc, ptr, count, memo, place))
            && (AllDecoded(g, refs) ==>
                  AllMade(DecodedAll(g, refs), memo, place) == ChildValues(doc, ptr, count, memo, place))
  {
    var g, refs := GraphOf(doc), ReadRefs(doc, ptr, count);
    forall i | 0 <= i < count
      ensures Decoded(g, refs[i]).Some? <==> ChildAt(doc, ptr, i, memo, place).Some?
      ensures Decoded(g, refs[i]).Some? ==>
                ChildAt(doc, ptr, i, memo, place).value == Made(Decoded(g, refs[i]).value, memo, place + [i])
    {
      ChildInGraph(doc, ptr, count, i, memo, place);
    }
  }

  lemma KeysInGraph(doc: Doc, ptr: nat, n: nat, memo: bool, place: seq<nat>)
    requires ValidDoc(doc) && AllDecoded(GraphOf(doc), ReadRefs(doc, ptr, 2 * n))
    ensures CanJoin(DictKind, DecodedAll(GraphOf(doc), ReadRefs(doc, ptr, 2 * n)))
            <==> KeysPrimitive(doc, ptr, n, memo, place)
  {
    var g, refs := GraphOf(doc), ReadRefs(doc, ptr, 2 * n);
    forall i | 0 <= i < n
      ensures DecodedAll(g, refs)[i].Atom?
              <==> ChildAt(doc, ptr, i, memo, place).Some? && ChildAt(doc, ptr, i, memo, place).value.Primitive()
    {
      ChildInGraph(doc, ptr, 2 * n, i, memo, place);
    }
  }

  lemma ContainerAt(doc: Doc, off: nat, kind: Kind, ptr: nat, count: nat, memo: bool, place: seq<nat>)
    requires ValidDoc(doc) && ShapeAt(doc, off) == Some(Container(kind, ptr, count))
    ensures var g, refs := GraphOf(doc), ReadRefs(doc, ptr, count);
            ValueAt(doc, off, memo, place)
            == if AllDecoded(g, refs) && CanJoin(kind, DecodedAll(g, refs))
               then Some(Assemble(kind, AllMade(DecodedAll(g, refs), memo, place))) else None
  {
    var g, refs := GraphOf(doc), ReadRefs(doc, ptr, count);
    CellOfContainer(doc, off, kind, ptr, count);
    DecodedStep(g, off);
    if AllDecoded(g, refs) {
      MadeBranch(kind, DecodedAll(g, refs), memo, place);
    }
  }

  /** An array has its elements in the order of the references, and fails only if one of them does. */
  lemma ArrayAt(doc: Doc, off: nat, ptr: nat, n: nat, memo: bool, place: seq<nat>)
    requires ValidDoc(doc) && ShapeAt(doc, off) == Some(Container(ArrayKind, ptr, n))
    ensures ValueAt(doc, off, memo, place)
            == if AllThere(doc, ptr, n, memo, place) then Some(Array(ChildValues(doc, ptr, n, memo, place))) else None
  {
    ContainerAt(doc, off, ArrayKind, ptr, n, memo, place);
    ChildrenInGraph(doc, ptr, n, memo, place);
  }

  lemma MembersAt(doc: Doc, off: nat, ptr: nat, n: nat, memo: bool, place: seq<nat>)
    requires ValidDoc(doc) && ShapeAt(doc, off) == Some(Container(SetKind, ptr, n))
    ensures ValueAt(doc, off, memo, place)
            == if AllThere(doc, ptr, n, memo, place)
               then Some(Assemble(SetKind, ChildValues(doc, ptr, n, memo, place))) else None
  {
    ContainerAt(doc, off, SetKind, ptr, n, memo, place);
    ChildrenInGraph(doc, ptr, n, memo, place);
  }

  /** A set has the first of each group of equal members, in the order of the references. */
  lemma SetAt(doc: Doc, off: nat, ptr: nat, n: nat, memo: bool, place: seq<nat>) returns (places: seq<nat>)
    requires ValidDoc(doc) && ShapeAt(doc, off) == Some(Container(SetKind, ptr, n))
    ensures ValueAt(doc, off, memo, place).Some? <==> AllThere(doc, ptr, n, memo, place)
    ensures AllThere(doc, ptr, n, memo, place) ==>
              IsSetOf(ValueAt(doc, off, memo, place).value, ChildValues(doc, ptr, n, memo, place), places)
  {
    MembersAt(doc, off, ptr, n, memo, place);
    places := [];
    if AllThere(doc, ptr, n, memo, place) {
      places := AssembledSet(ChildValues(doc, ptr, n, memo, place));
    }
  }

  lemma PairsAt(doc: Doc, off: nat, ptr: nat, n: nat, memo: bool, place: seq<nat>)
    requires ValidDoc(doc) && ShapeAt(doc, off) == Some(Container(DictKind, ptr, 2 * n))
    ensures ValueAt(doc, off, memo, place)
            == if AllThere(doc, ptr, 2 * n, memo, place) && KeysPrimitive(doc, ptr, n, memo, place)
               then Some(Assemble(DictKind, ChildValues(doc, ptr, 2 * n, memo, place))) else None
  {
    ContainerAt(doc, off, DictKind, ptr, 2 * n, memo, place);
    ChildrenInGraph(doc, ptr, 2 * n, memo, place);
    if AllThere(doc, ptr, 2 * n, memo, place) {
      KeysInGraph(doc, ptr, n, memo, place);
    }
  }

  /** A dictionary of `n` keys and then as many values has the first of each group of equal keys, with its value. */
  lemma DictAt(doc: Doc, off: nat, ptr: nat, n: nat, memo: bool, place: seq<nat>) returns (places: seq<nat>)
    requires ValidDoc(doc) && ShapeAt(doc, off) == Some(Container(DictKind, ptr, 2 * n))
    ensures ValueAt(doc, off, memo, place).Some?
            <==> AllThere(doc, ptr, 2 * n, memo, place) && KeysPrimitive(doc, ptr, n, memo, place)
    ensures ValueAt(doc, off, memo, place).Some? ==>
              IsDictOf(ValueAt(doc, off, memo, place).value, ChildValues(doc, ptr, 2 * n, memo, place)[..n],
                       ChildValues(doc, ptr, 2 * n, memo, place)[n..], places)
  {
    PairsAt(doc, off, ptr, n, memo, place);
    places := [];
    if ValueAt(doc, off, memo, place).Some? {
      places := AssembledDict(ChildValues(doc, ptr, 2 * n, memo, place), n);
    }
  }

  /** Behind the references of a dictionary lie the strings as its keys. */
  ghost predicate KeysAre(doc: Doc, ptr: nat, strs: seq<seq<unichar>>)
    requires ValidDoc(doc)
  {
    forall i | 0 <= i < |strs| ::
      ShapeAt(doc, OffsetOfRef(doc, ptr + i * doc.t.objectRefSize)) == Some(Primitive(Str(strs[i])))
  }

  lemma KeyValues(doc: Doc, ptr: nat, strs: seq<seq<unichar>>, memo: bool, place: seq<nat>)
    requires ValidDoc(doc) && KeysAre(doc, ptr, strs)
    ensures forall i | 0 <= i < |strs| :: ChildAt(doc, ptr, i, memo, place) == Some(Str(strs[i]))
  {
    forall i | 0 <= i < |strs| ensures ChildAt(doc, ptr, i, memo, place) == Some(Str(strs[i])) {
      PrimitiveAt(doc, OffsetOfRef(doc, ptr + i * doc.t.objectRefSize), Str(strs[i]), memo, place + [i]);
    }
  }

  /** With pairwise different strings as its keys a dictionary has all of them, each with its own value. */
  lemma StringDictAt(doc: Doc, off: nat, ptr: nat, strs: seq<seq<unichar>>, memo: bool, place: seq<nat>)
    requires ValidDoc(doc) && ShapeAt(doc, off) == Some(Container(DictKind, ptr, 2 * |strs|)) && KeysAre(doc, ptr, strs)
    requires forall i, j | 0 <= i < j < |strs| :: strs[i] != strs[j]
    requires AllThere(doc, ptr, 2 * |strs|, memo, place)
    ensures ValueAt(doc, off, memo, place)
            == Some(Dict(Strings(strs), ChildValues(doc, ptr, 2 * |strs|, memo, place)[|strs|..]))
  {
    var n, vals := |strs|, ChildValues(doc, ptr, 2 * |strs|, memo, place);
    KeyValues(doc, ptr, strs, memo, place);
    PairsAt(doc, off, ptr, n, memo, place);
    assert vals == Strings(strs) + vals[n..];
    StringsApart(strs, vals[n..]);
  }
}
