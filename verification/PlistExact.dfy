/** Values written and read: what comes back, and exactly when it is what was written. */
module PlistExact {
  import opened Bytes
  import opened Plist
  import opened PlistFlatten
  import opened PlistFile
  import opened PlistWriter
  import opened PlistObjects
  import opened PlistDecode
  import opened PlistIdentity
  import opened PlistValues
  import opened PlistRoundTrip

  // ----- Trees of stores -----

  /** Trees that the writer meets: no sets, and dictionaries with primitive keys. */
  ghost predicate Written(t: Tree) {
    t.Branch? ==>
      && t.kind != SetKind && CanJoin(t.kind, t.children)
      && forall i | 0 <= i < |t.children| :: Written(t.children[i])
  }

  lemma {:induction false} TreeWritten(st: Store, rank: map<Id, nat>, id: Id)
    requires Acyclic(st, rank) && id in st
    ensures Written(TreeAt(st, rank, id))
    decreases rank[id]
  {
    assert NodeBelow(st, rank, id);
    if !st[id].Leaf? {
      var ids, ts := st[id].Children(), TreesAt(st, rank, st[id].Children(), rank[id]);
      forall i | 0 <= i < |ids| ensures Written(ts[i]) {
        TreeWritten(st, rank, ids[i]);
      }
      if st[id].DictNode? {
        forall i | 0 <= i < |st[id].keys| ensures ts[i].Atom? {
          KeyAtom(st, rank, id, i);
        }
      }
    }
  }

  /** Every UID of the tree is an object of `s`. */
  ghost predicate UidsIn(t: Tree, s: set<Id>) {
    match t
    case Atom(v) => v.Uid? ==> v.at.Object? && v.at.id in s
    case Branch(_, cs) => forall i | 0 <= i < |cs| :: UidsIn(cs[i], s)
  }

  lemma {:induction false} TreeUidsIn(st: Store, rank: map<Id, nat>, table: map<Id, nat>, id: Id)
    requires Acyclic(st, rank) && id in st && id in table
    requires forall k, c | k in table && k in st && c in st[k].Children() :: c in table
    ensures UidsIn(TreeAt(st, rank, id), table.Keys)
    decreases rank[id]
  {
    assert NodeBelow(st, rank, id);
    if !st[id].Leaf? {
      var ids, ts := st[id].Children(), TreesAt(st, rank, st[id].Children(), rank[id]);
      forall i | 0 <= i < |ids| ensures UidsIn(ts[i], table.Keys) {
        TreeUidsIn(st, rank, table, ids[i]);
      }
    }
  }

  // ----- Moving UIDs to other addresses -----

  ghost function Moved(v: Value, to: Id -> nat): Value {
    match v
    case Uid(u, Object(id)) => Uid(u, Object(to(id)))
    case Array(es) => Array(seq(|es|, i requires 0 <= i < |es| => Moved(es[i], to)))
    case Set(ms) => Set(seq(|ms|, i requires 0 <= i < |ms| => Moved(ms[i], to)))
    case Dict(ks, vs) => Dict(seq(|ks|, i requires 0 <= i < |ks| => Moved(ks[i], to)),
                              seq(|vs|, i requires 0 <= i < |vs| => Moved(vs[i], to)))
    case _ => v
  }

  ghost predicate Injective(to: Id -> nat, s: set<Id>) {
    forall x, y | x in s && y in s && to(x) == to(y) :: x == y
  }

  lemma {:induction false} BareMoved(v: Value, to: Id -> nat)
    ensures Agree(Moved(v, to), v)
  {
    match v
    case Array(es) =>
      forall i | 0 <= i < |es| ensures Agree(Moved(v, to).elems[i], es[i]) {
        BareMoved(es[i], to);
      }
      ListsAgree(Moved(v, to).elems, es);
    case Set(ms) =>
      forall i | 0 <= i < |ms| ensures Agree(Moved(v, to).members[i], ms[i]) {
        BareMoved(ms[i], to);
      }
      ListsAgree(Moved(v, to).members, ms);
    case Dict(ks, vs) =>
      forall i | 0 <= i < |ks| ensures Agree(Moved(v, to).keys[i], ks[i]) {
        BareMoved(ks[i], to);
      }
      forall i | 0 <= i < |vs| ensures Agree(Moved(v, to).values[i], vs[i]) {
        BareMoved(vs[i], to);
      }
      ListsAgree(Moved(v, to).keys, ks);
      ListsAgree(Moved(v, to).values, vs);
      DictsAgree(Moved(v, to).keys, Moved(v, to).values, ks, vs);
    case _ =>
  }

  ghost function MovedAll(s: seq<Value>, to: Id -> nat): (r: seq<Value>)
    ensures |r| == |s|
  {
    seq(|s|, i requires 0 <= i < |s| => Moved(s[i], to))
  }

  lemma MovedKeysEqual(v: PrimitiveValue, w: PrimitiveValue, to: Id -> nat, s: set<Id>)
    requires Injective(to, s) && UidsIn(Atom(v), s) && UidsIn(Atom(w), s)
    ensures Equal(Moved(v, to), Moved(w, to)) <==> Equal(v, w)
  {
  }

  /** A dictionary keeps the same keys wherever its UIDs lie. */
  lemma MovedKept(ks: seq<Value>, to: Id -> nat, s: set<Id>)
    requires Injective(to, s) && forall i | 0 <= i < |ks| :: ks[i].Primitive() && UidsIn(Atom(ks[i]), s)
    ensures Kept(MovedAll(ks, to), |ks|) == Kept(ks, |ks|)
  {
    forall j | 0 <= j < |ks| ensures Repeats(MovedAll(ks, to), j) <==> Repeats(ks, j) {
      forall i | 0 <= i < j ensures Equal(MovedAll(ks, to)[i], MovedAll(ks, to)[j]) <==> Equal(ks[i], ks[j]) {
        MovedKeysEqual(ks[i], ks[j], to, s);
      }
    }
    KeptAlike(MovedAll(ks, to), ks, |ks|);
  }

  lemma MovedPick(s: seq<Value>, places: seq<nat>, to: Id -> nat)
    requires forall i | 0 <= i < |places| :: places[i] < |s|
    ensures Pick(MovedAll(s, to), places) == MovedAll(Pick(s, places), to)
  {
  }

  lemma MovedDict(vals: seq<Value>, h: nat, to: Id -> nat, s: set<Id>)
    requires Injective(to, s) && h == |vals| / 2
    requires forall i | 0 <= i < h :: vals[i].Primitive() && UidsIn(Atom(vals[i]), s)
    ensures Assemble(DictKind, MovedAll(vals, to)) == Moved(Assemble(DictKind, vals), to)
  {
    var ks, vs := vals[..h], vals[h..];
    var kept := Kept(ks, h);
    assert MovedAll(vals, to)[..h] == MovedAll(ks, to) && MovedAll(vals, to)[h..] == MovedAll(vs, to);
    MovedKept(ks, to, s);
    MovedPick(ks, kept, to);
    MovedPick(vs, kept, to);
  }

  lemma {:induction false} SharedMoved(t: Tree, to: Id -> nat, s: set<Id>)
    requires Written(t) && UidsIn(t, s) && Injective(to, s)
    ensures Shared(MovedTree(t, to)) == Moved(Shared(t), to)
    decreases t
  {
    match t
    case Atom(v) =>
    case Branch(kind, cs) =>
      forall i | 0 <= i < |cs| ensures Shared(MovedTree(cs[i], to)) == Moved(Shared(cs[i]), to) {
        SharedMoved(cs[i], to, s);
      }
      var vals := SharedAll(cs);
      assert SharedAll(MovedTrees(cs, to)) == MovedAll(vals, to);
      MovedBranch(kind, cs, to);
      BothMade(kind, cs, []);
      BothMade(kind, MovedTrees(cs, to), []);
      if kind == DictKind {
        forall i | 0 <= i < |cs| / 2 ensures vals[i].Primitive() && UidsIn(Atom(vals[i]), s) {
          assert cs[i].Atom? && UidsIn(cs[i], s);
        }
        MovedDict(vals, |cs| / 2, to, s);
      }
  }

  // ----- The round trip -----

  lemma {:induction false} StartsGrow(parts: seq<seq<byte>>, i: nat, j: nat)
    requires i < j < |parts| && forall k | 0 <= k < |parts| :: parts[k] != []
    ensures Start(parts, i) < Start(parts, j)
    decreases j
  {
    assert parts[..j][..j - 1] == parts[..j - 1];
    if i < j - 1 {
      StartsGrow(parts, i, j - 1);
    }
  }

  /** No two objects of the table lie at the same place of the file. */
  lemma PlacesInjective(st: Store, f: Flat)
    requires Ready(st, f) && Fits(Encodings(st, f))
    ensures Injective(FilePlaces(st, f), f.table.Keys)
  {
    var parts := Encodings(st, f);
    forall x, y | x in f.table && y in f.table && FilePlaces(st, f)(x) == FilePlaces(st, f)(y) ensures x == y {
      var i, j := f.table[x], f.table[y];
      if i < j {
        StartsGrow(parts, i, j);
      } else if j < i {
        StartsGrow(parts, j, i);
      }
    }
  }

  /** The UIDs of the tree below the root are in the table. */
  lemma RootUidsIn(st: Store, rank: map<Id, nat>, root: Id)
    requires Acyclic(st, rank) && Acyclic(Truncated(st), rank) && root in st && Short(st, Flatten(st, rank, root))
    ensures UidsIn(TreeAt(Truncated(st), rank, root), Flatten(st, rank, root).table.Keys)
  {
    var f := Flatten(st, rank, root);
    FlattenCorrect(st, rank, root);
    FlatPlaced(st, f);
    var t := Truncated(st);
    forall k, c | k in f.table && k in t && c in t[k].Children() ensures c in f.table {
      assert t[k].Children() == st[k].Children();
    }
    TreeUidsIn(t, rank, f.table, root);
  }

  /**
   The round trip: read with a memo table, the file written for `root` gives the value of the object
   graph below `root`, with its UIDs at their places in the file and the high half of every 128-bit
   integer lost.
   */
  lemma RoundTrip(st: Store, rank: map<Id, nat>, root: Id)
    requires Acyclic(st, rank) && root in st && Short(st, Flatten(st, rank, root))
    ensures var f := Flatten(st, rank, root);
            && Fits(Encodings(st, f)) && Acyclic(Truncated(st), rank) && Injective(FilePlaces(st, f), f.table.Keys)
            && Parse(FileOf(Encodings(st, f)), true)
               == Some(Moved(Unfold(Truncated(st), rank, root), FilePlaces(st, f)))
  {
    var f := Flatten(st, rank, root);
    TreeComesBack(st, rank, root);
    PlacesInjective(st, f);
    RootUidsIn(st, rank, root);
    TreeWritten(Truncated(st), rank, root);
    SharedMoved(TreeAt(Truncated(st), rank, root), FilePlaces(st, f), f.table.Keys);
  }

  // ----- Without a memo table -----

  /** No dictionary has a UID twice among its keys. */
  ghost predicate UidKeysDiffer(t: Tree) {
    t.Branch? ==>
      && (t.kind == DictKind ==>
            forall i, j | 0 <= i < j < |t.children| / 2 && t.children[i] == t.children[j] ::
              t.children[i].Atom? && !t.children[i].value.Uid?)
      && forall i | 0 <= i < |t.children| :: UidKeysDiffer(t.children[i])
  }

  lemma {:induction false} DifferentNoDoubles(t: Tree)
    requires Written(t) && UidKeysDiffer(t)
    ensures NoDoubles(t)
  {
    match t
    case Atom(_) =>
    case Branch(kind, cs) =>
      forall i | 0 <= i < |cs| ensures NoDoubles(cs[i]) {
        DifferentNoDoubles(cs[i]);
      }
      if kind == DictKind {
        DoubledKey(cs, |cs| / 2);
      }
  }

  lemma MovedApart(x: Tree, y: Tree, to: Id -> nat, s: set<Id>)
    requires x.Atom? && y.Atom? && UidsIn(x, s) && UidsIn(y, s) && Injective(to, s)
    ensures MovedTree(x, to).Atom? && (MovedTree(x, to).value.Uid? <==> x.value.Uid?)
    ensures x.value.Uid? && MovedTree(x, to) == MovedTree(y, to) ==> x == y
  {
  }

  lemma {:induction false} MovedDiffer(t: Tree, to: Id -> nat, s: set<Id>)
    requires Written(t) && UidKeysDiffer(t) && UidsIn(t, s) && Injective(to, s)
    ensures Written(MovedTree(t, to)) && UidKeysDiffer(MovedTree(t, to))
  {
    match t
    case Atom(_) =>
    case Branch(kind, cs) =>
      var ms := MovedTrees(cs, to);
      MovedBranch(kind, cs, to);
      forall i | 0 <= i < |cs| ensures Written(ms[i]) && UidKeysDiffer(ms[i]) {
        MovedDiffer(cs[i], to, s);
      }
      if kind == DictKind {
        forall i, j | 0 <= i < j < |cs| / 2 && ms[i] == ms[j] ensures ms[i].Atom? && !ms[i].value.Uid? {
          assert cs[i].Atom? && cs[j].Atom? && UidsIn(cs[i], s) && UidsIn(cs[j], s);
          MovedApart(cs[i], cs[j], to, s);
        }
      }
  }

  /** The keys of every dictionary are different, as those of a dictionary are. */
  ghost predicate DistinctKeys(st: Store) {
    forall id, i, j | id in st && st[id].DictNode? && 0 <= i < j < |st[id].keys| ::
      && Leaflike(st, st[id].keys[i]) && Leaflike(st, st[id].keys[j])
      && !Equal(st[st[id].keys[i]].value, st[st[id].keys[j]].value)
  }

  /** Two keys that are the same when they have been cut are not UIDs. */
  lemma CutKeysDiffer(st: Store, rank: map<Id, nat>, id: Id, i: nat, j: nat)
    requires Acyclic(st, rank) && Acyclic(Truncated(st), rank) && DistinctKeys(st) && id in st && st[id].DictNode?
    requires NodeBelow(Truncated(st), rank, id) && i < j < |st[id].keys|
    ensures var ts := TreesAt(Truncated(st), rank, Truncated(st)[id].Children(), rank[id]);
            ts[i] == ts[j] ==> ts[i].Atom? && !ts[i].value.Uid?
  {
    KeyAtom(Truncated(st), rank, id, i);
    KeyAtom(Truncated(st), rank, id, j);
    assert !Equal(st[st[id].keys[i]].value, st[st[id].keys[j]].value);
  }

  lemma {:induction false} TruncatedDiffer(st: Store, rank: map<Id, nat>, id: Id)
    requires Acyclic(st, rank) && Acyclic(Truncated(st), rank) && DistinctKeys(st) && id in st
    ensures UidKeysDiffer(TreeAt(Truncated(st), rank, id))
    decreases rank[id]
  {
    var t := Truncated(st);
    assert NodeBelow(t, rank, id) && NodeBelow(st, rank, id) && t[id].Children() == st[id].Children();
    if !st[id].Leaf? {
      var ids, ts := t[id].Children(), TreesAt(t, rank, t[id].Children(), rank[id]);
      forall i | 0 <= i < |ids| ensures UidKeysDiffer(ts[i]) {
        TruncatedDiffer(st, rank, ids[i]);
      }
      if st[id].DictNode? {
        forall i, j | 0 <= i < j < |st[id].keys| && ts[i] == ts[j] ensures ts[i].Atom? && !ts[i].value.Uid? {
          CutKeysDiffer(st, rank, id, i, j);
        }
      }
    }
  }

  /** Read without a memo table it is the same property list, but for the addresses of UIDs. */
  lemma RoundTripPlain(st: Store, rank: map<Id, nat>, root: Id)
    requires Acyclic(st, rank) && root in st && Short(st, Flatten(st, rank, root)) && DistinctKeys(st)
    ensures var f := Flatten(st, rank, root);
            && Fits(Encodings(st, f)) && Acyclic(Truncated(st), rank) && Parse(FileOf(Encodings(st, f)), false).Some?
            && Agree(Parse(FileOf(Encodings(st, f)), false).value, Unfold(Truncated(st), rank, root))
  {
    var f := Flatten(st, rank, root);
    RoundTrip(st, rank, root);
    TreeComesBack(st, rank, root);
    var t, to := TreeAt(Truncated(st), rank, root), FilePlaces(st, f);
    TreeWritten(Truncated(st), rank, root);
    RootUidsIn(st, rank, root);
    TruncatedDiffer(st, rank, root);
    MovedDiffer(t, to, f.table.Keys);
    DifferentNoDoubles(MovedTree(t, to));
    AgreeIffNoDoubles(MovedTree(t, to), []);
    BareMoved(Unfold(Truncated(st), rank, root), to);
  }

  /** Writing to a data object and parsing the result. */
  method WriteAndRead(st: Store, ghost rank: map<Id, nat>, root: Id, option: Mutability, memo: bool)
    returns (r: Option<Value>)
    requires Acyclic(st, rank) && root in st && Short(st, Flatten(st, rank, root))
    ensures Acyclic(Truncated(st), rank) && r.Some?
    ensures memo ==> r.value == Moved(Unfold(Truncated(st), rank, root), FilePlaces(st, Flatten(st, rank, root)))
    ensures memo || DistinctKeys(st) ==> Agree(r.value, Unfold(Truncated(st), rank, root))
  {
    ghost var f := Flatten(st, rank, root);
    RoundTrip(st, rank, root);
    BareMoved(Unfold(Truncated(st), rank, root), FilePlaces(st, f));
    if DistinctKeys(st) {
      RoundTripPlain(st, rank, root);
    }
    var length, out := Write(st, rank, root, true, []);
    FileLayout(Encodings(st, f));
    FileWellSized(Encodings(st, f));
    r := TryParse(out, option, memo);
  }

  // ----- Exactly when nothing is lost -----

  /** The tree as the reader will know it. */
  ghost function Cut(t: Tree): Tree {
    match t
    case Atom(v) => Atom(AsRead(v))
    case Branch(kind, cs) => Branch(kind, seq(|cs|, i requires 0 <= i < |cs| => Cut(cs[i])))
  }

  ghost function CutAll(ts: seq<Tree>): (r: seq<Tree>)
    ensures |r| == |ts|
  {
    seq(|ts|, i requires 0 <= i < |ts| => Cut(ts[i]))
  }

  /** No 128-bit integer uses its high half. */
  ghost predicate Narrow(t: Tree) {
    match t
    case Atom(v) => v.WideInt? ==> v.high == 0
    case Branch(_, cs) => forall i | 0 <= i < |cs| :: Narrow(cs[i])
  }

  /** The keys of each dictionary differ. */
  ghost predicate KeysDiffer(t: Tree) {
    t.Branch? ==>
      && (t.kind == DictKind ==>
            forall i, j | 0 <= i < j < |t.children| / 2 :: !Equal(Shared(t.children[i]), Shared(t.children[j])))
      && forall i | 0 <= i < |t.children| :: KeysDiffer(t.children[i])
  }

  /** A dictionary that keeps all its entries. */
  lemma AllEntries(vals: seq<Value>, h: nat)
    requires |vals| == 2 * h
    ensures Assemble(DictKind, vals).Dict? && |Assemble(DictKind, vals).keys| <= h
    ensures |Assemble(DictKind, vals).keys| == h ==> Assemble(DictKind, vals) == Dict(vals[..h], vals[h..])
    ensures (forall i, j | 0 <= i < j < h :: !Equal(vals[i], vals[j])) ==> |Assemble(DictKind, vals).keys| == h
  {
    KeptAll(vals[..h], h);
  }

  lemma {:induction false} NarrowIsUncut(t: Tree)
    requires Narrow(t)
    ensures Cut(t) == t
  {
    match t
    case Atom(_) =>
    case Branch(kind, cs) =>
      forall i | 0 <= i < |cs| ensures Cut(cs[i]) == cs[i] {
        NarrowIsUncut(cs[i]);
      }
      assert CutAll(cs) == cs;
  }

  lemma PartsAgree(a: seq<Value>, b: seq<Value>, h: nat, i: nat)
    requires |a| == |b| && h <= |a| && i < |a|
    requires Agree(Array(a[..h]), Array(b[..h])) && Agree(Array(a[h..]), Array(b[h..]))
    ensures Agree(a[i], b[i])
  {
    ListsAgree(a[..h], b[..h]);
    ListsAgree(a[h..], b[h..]);
    if i < h {
      assert a[i] == a[..h][i] && b[i] == b[..h][i];
    } else {
      assert a[i] == a[h..][i - h] && b[i] == b[h..][i - h];
    }
  }

  lemma AgreeSameSize(ka: seq<Value>, va: seq<Value>, kb: seq<Value>, vb: seq<Value>)
    requires Agree(Dict(ka, va), Dict(kb, vb))
    ensures |ka| == |kb|
  {
    DictsAgree(ka, va, kb, vb);
    ListsAgree(ka, kb);
  }

  /** Entries that agree, where all are kept on one side. */
  lemma EntriesAgree(a: seq<Value>, b: seq<Value>, h: nat, i: nat)
    requires |a| == |b| == 2 * h && (forall i, j | 0 <= i < j < h :: !Equal(b[i], b[j])) && i < 2 * h
    requires Agree(Assemble(DictKind, a), Assemble(DictKind, b))
    ensures Agree(a[i], b[i])
  {
    AllEntries(a, h);
    AllEntries(b, h);
    var x, y := Assemble(DictKind, a), Assemble(DictKind, b);
    AgreeSameSize(x.keys, x.values, y.keys, y.values);
    DictsAgree(a[..h], a[h..], b[..h], b[h..]);
    PartsAgree(a, b, h, i);
  }

  lemma ChildAgrees(kind: Kind, cs: seq<Tree>, i: nat)
    requires Written(Branch(kind, cs)) && KeysDiffer(Branch(kind, cs)) && i < |cs|
    requires Agree(Assemble(kind, SharedAll(CutAll(cs))), Assemble(kind, SharedAll(cs)))
    ensures Agree(Shared(Cut(cs[i])), Shared(cs[i]))
  {
    var a, b := SharedAll(CutAll(cs)), SharedAll(cs);
    if kind == ArrayKind {
      ListsAgree(a, b);
    } else {
      EntriesAgree(a, b, |cs| / 2, i);
    }
    assert a[i] == Shared(Cut(cs[i])) && b[i] == Shared(cs[i]);
  }

  lemma {:induction false} UncutIsNarrow(t: Tree)
    requires Written(t) && KeysDiffer(t) && Agree(Shared(Cut(t)), Shared(t))
    ensures Narrow(t)
  {
    match t
    case Atom(_) =>
    case Branch(kind, cs) =>
      assert Cut(t) == Branch(kind, CutAll(cs));
      BothMade(kind, cs, []);
      BothMade(kind, CutAll(cs), []);
      forall i | 0 <= i < |cs| ensures Narrow(cs[i]) {
        ChildAgrees(kind, cs, i);
        UncutIsNarrow(cs[i]);
      }
  }

  lemma {:induction false} TreeCut(st: Store, rank: map<Id, nat>, id: Id)
    requires Acyclic(st, rank) && Acyclic(Truncated(st), rank) && id in st
    ensures TreeAt(Truncated(st), rank, id) == Cut(TreeAt(st, rank, id))
    decreases rank[id]
  {
    var t := Truncated(st);
    assert NodeBelow(t, rank, id) && NodeBelow(st, rank, id) && t[id].Children() == st[id].Children();
    if !st[id].Leaf? {
      var ids := st[id].Children();
      var ts, us := TreesAt(st, rank, ids, rank[id]), TreesAt(t, rank, ids, rank[id]);
      forall i | 0 <= i < |ids| ensures us[i] == Cut(ts[i]) {
        TreeCut(st, rank, ids[i]);
      }
      assert us == CutAll(ts);
    }
  }

  lemma {:induction false} StoreKeysDiffer(st: Store, rank: map<Id, nat>, id: Id)
    requires Acyclic(st, rank) && DistinctKeys(st) && id in st
    ensures KeysDiffer(TreeAt(st, rank, id))
    decreases rank[id]
  {
    assert NodeBelow(st, rank, id);
    if !st[id].Leaf? {
      var ids, ts := st[id].Children(), TreesAt(st, rank, st[id].Children(), rank[id]);
      forall i | 0 <= i < |ids| ensures KeysDiffer(ts[i]) {
        StoreKeysDiffer(st, rank, ids[i]);
      }
      if st[id].DictNode? {
        forall i, j | 0 <= i < j < |st[id].keys| ensures !Equal(Shared(ts[i]), Shared(ts[j])) {
          KeyAtom(st, rank, id, i);
          KeyAtom(st, rank, id, j);
        }
      }
    }
  }

  /**
   The file parses to the property list that was written, but for the addresses of UIDs, if and only
   if no 128-bit integer below the root needs more than 64 bits.
   */
  lemma RoundTripExact(st: Store, rank: map<Id, nat>, root: Id, memo: bool)
    requires Acyclic(st, rank) && root in st && DistinctKeys(st) && Short(st, Flatten(st, rank, root))
    ensures var f := Flatten(st, rank, root);
            && Fits(Encodings(st, f)) && Parse(FileOf(Encodings(st, f)), memo).Some?
            && (Agree(Parse(FileOf(Encodings(st, f)), memo).value, Unfold(st, rank, root))
                <==> Narrow(TreeAt(st, rank, root)))
  {
    var f, t := Flatten(st, rank, root), TreeAt(st, rank, root);
    RoundTrip(st, rank, root);
    RoundTripPlain(st, rank, root);
    BareMoved(Unfold(Truncated(st), rank, root), FilePlaces(st, f));
    TreeCut(st, rank, root);
    TreeWritten(st, rank, root);
    StoreKeysDiffer(st, rank, root);
    if Narrow(t) {
      NarrowIsUncut(t);
    }
    if Agree(Shared(Cut(t)), Shared(t)) {
      UncutIsNarrow(t);
    }
  }
}
