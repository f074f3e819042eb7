/** When values are equal, by what they hold, and what sets and dictionaries keep of what is added to them. */
module PlistValues {
  import Bytes
  import opened Plist

  // ----- Equality -----

  /** Integers of either width are equal if their numbers are, other primitives only if they are the same. */
  lemma EqualPrimitives(v: PrimitiveValue, w: PrimitiveValue)
    ensures v.Int? && w.Int? ==> (Equal(v, w) <==> v.v == w.v)
    ensures v.WideInt? && w.WideInt? ==>
              (Equal(v, w)
               <==> v.high * 0x1_0000_0000_0000_0000 + v.low == w.high * 0x1_0000_0000_0000_0000 + w.low)
    ensures v.Int? && w.WideInt? ==> (Equal(v, w) <==> v.v == w.high * 0x1_0000_0000_0000_0000 + w.low)
    ensures v.WideInt? && w.Int? ==> (Equal(v, w) <==> w.v == v.high * 0x1_0000_0000_0000_0000 + v.low)
    ensures !((v.Int? || v.WideInt?) && (w.Int? || w.WideInt?)) ==> (Equal(v, w) <==> v == w)
  {
  }

  /** Arrays are equal element by element. */
  lemma EqualArrays(a: seq<Value>, b: seq<Value>)
    ensures Equal(Array(a), Array(b)) <==> |a| == |b| && forall i | 0 <= i < |a| :: Equal(a[i], b[i])
  {
    var v, w := ClassOf(Array(a)), ClassOf(Array(b));
    assert forall i | 0 <= i < |a| :: v.elems[i] == ClassOf(a[i]);
    assert forall i | 0 <= i < |b| :: w.elems[i] == ClassOf(b[i]);
    if |a| == |b| && forall i | 0 <= i < |a| :: Equal(a[i], b[i]) {
      assert v.elems == w.elems;
    }
  }

  /** Everything in `a` has an equal in `b`. */
  ghost predicate Covers(b: seq<Value>, a: seq<Value>) {
    forall i | 0 <= i < |a| :: Has(b, a[i])
  }

  ghost predicate Has(b: seq<Value>, v: Value) {
    exists j :: 0 <= j < |b| && Equal(v, b[j])
  }

  lemma MembersAre(a: seq<Value>, c: Class)
    ensures c in ClassOf(Set(a)).members <==> exists i :: 0 <= i < |a| && c == ClassOf(a[i])
  {
  }

  lemma CoversIsSubset(b: seq<Value>, a: seq<Value>, x: set<Class>, y: set<Class>)
    requires x == ClassOf(Set(a)).members && y == ClassOf(Set(b)).members
    ensures Covers(b, a) <==> x <= y
  {
    if x <= y {
      forall i | 0 <= i < |a| ensures Has(b, a[i]) {
        MembersAre(a, ClassOf(a[i]));
        MembersAre(b, ClassOf(a[i]));
      }
    }
    if Covers(b, a) {
      forall c | c in x ensures c in y {
        MembersAre(a, c);
        MembersAre(b, c);
      }
    }
  }

  /** Sets are equal if each has everything that the other has. */
  lemma EqualSets(a: seq<Value>, b: seq<Value>)
    ensures Equal(Set(a), Set(b)) <==> Covers(a, b) && Covers(b, a)
  {
    var x, y := ClassOf(Set(a)).members, ClassOf(Set(b)).members;
    CoversIsSubset(a, b, y, x);
    CoversIsSubset(b, a, x, y);
  }

  /** Every entry of the first dictionary has an equal key with an equal value in the second. */
  ghost predicate CoversEntries(ls: seq<Value>, ws: seq<Value>, ks: seq<Value>, vs: seq<Value>) {
    forall i | 0 <= i < |ks| && i < |vs| :: HasEntry(ls, ws, ks[i], vs[i])
  }

  ghost predicate HasEntry(ls: seq<Value>, ws: seq<Value>, k: Value, v: Value) {
    exists j :: 0 <= j < |ls| && j < |ws| && Equal(k, ls[j]) && Equal(v, ws[j])
  }

  lemma EntriesAre(ks: seq<Value>, vs: seq<Value>, c: (Class, Class))
    ensures c in ClassOf(Dict(ks, vs)).entries
            <==> exists i :: 0 <= i < |ks| && i < |vs| && c.0 == ClassOf(ks[i]) && c.1 == ClassOf(vs[i])
  {
  }

  lemma CoversEntriesIsSubset(ls: seq<Value>, ws: seq<Value>, ks: seq<Value>, vs: seq<Value>, x: set<(Class, Class)>,
                              y: set<(Class, Class)>)
    requires x == ClassOf(Dict(ks, vs)).entries && y == ClassOf(Dict(ls, ws)).entries
    ensures CoversEntries(ls, ws, ks, vs) <==> x <= y
  {
    if x <= y {
      forall i | 0 <= i < |ks| && i < |vs|
        ensures HasEntry(ls, ws, ks[i], vs[i])
      {
        EntriesAre(ks, vs, (ClassOf(ks[i]), ClassOf(vs[i])));
        EntriesAre(ls, ws, (ClassOf(ks[i]), ClassOf(vs[i])));
      }
    }
    if CoversEntries(ls, ws, ks, vs) {
      forall c | c in x ensures c in y {
        EntriesAre(ks, vs, c);
        EntriesAre(ls, ws, c);
      }
    }
  }

  /** Dictionaries are equal if each has every entry that the other has. */
  lemma EqualDicts(ks: seq<Value>, vs: seq<Value>, ls: seq<Value>, ws: seq<Value>)
    ensures Equal(Dict(ks, vs), Dict(ls, ws)) <==> CoversEntries(ls, ws, ks, vs) && CoversEntries(ks, vs, ls, ws)
  {
    var x, y := ClassOf(Dict(ks, vs)).entries, ClassOf(Dict(ls, ws)).entries;
    CoversEntriesIsSubset(ls, ws, ks, vs, x, y);
    CoversEntriesIsSubset(ks, vs, ls, ws, y, x);
  }

  /** Values of different kinds are never equal. */
  lemma EqualKinds(v: Value, w: Value)
    requires Equal(v, w)
    ensures v.Primitive() <==> w.Primitive()
    ensures (v.Array? <==> w.Array?) && (v.Set? <==> w.Set?) && (v.Dict? <==> w.Dict?)
  {
  }

  // ----- What is kept -----

  lemma {:induction false} KeptIs(s: seq<Value>, n: nat, j: nat)
    requires n <= |s|
    ensures j in Kept(s, n) <==> j < n && !Repeats(s, j)
  {
    if n > 0 {
      KeptIs(s, n - 1, j);
    }
  }

  lemma {:induction false} KeptAll(s: seq<Value>, n: nat)
    requires n <= |s|
    ensures |Kept(s, n)| <= n
    ensures |Kept(s, n)| == n <==> forall j | 0 <= j < n :: !Repeats(s, j)
    ensures |Kept(s, n)| == n ==> forall j | 0 <= j < n :: Kept(s, n)[j] == j
  {
    if n > 0 {
      KeptAll(s, n - 1);
    }
  }

  lemma {:induction false} KeptGrows(s: seq<Value>, n: nat)
    requires n <= |s|
    ensures forall i, j | 0 <= i < j < |Kept(s, n)| :: Kept(s, n)[i] < Kept(s, n)[j]
  {
    if n > 0 {
      KeptGrows(s, n - 1);
    }
  }

  /** The places, in order, of what has no equal in front of it. */
  ghost predicate Firsts(s: seq<Value>, places: seq<nat>) {
    && (forall i, j | 0 <= i < j < |places| :: places[i] < places[j])
    && (forall p: nat :: p in places <==> p < |s| && forall i | 0 <= i < p :: !Equal(s[i], s[p]))
  }

  lemma KeptAreFirsts(s: seq<Value>)
    ensures Firsts(s, Kept(s, |s|))
  {
    KeptGrows(s, |s|);
    forall p: nat ensures p in Kept(s, |s|) <==> p < |s| && forall i | 0 <= i < p :: !Equal(s[i], s[p]) {
      KeptIs(s, |s|, p);
    }
  }

  /** The set has, in order, the first of each group of equal values. */
  ghost predicate IsSetOf(v: Value, vals: seq<Value>, places: seq<nat>) {
    && Firsts(vals, places) && v.Set? && |v.members| == |places|
    && forall k | 0 <= k < |places| :: places[k] < |vals| && v.members[k] == vals[places[k]]
  }

  lemma AssembledSet(vals: seq<Value>) returns (places: seq<nat>)
    ensures IsSetOf(Assemble(SetKind, vals), vals, places)
  {
    places := Kept(vals, |vals|);
    KeptAreFirsts(vals);
  }

  /** The dictionary has, in order, the first of each group of equal keys, and the value that came with it. */
  ghost predicate IsDictOf(v: Value, ks: seq<Value>, vs: seq<Value>, places: seq<nat>) {
    && Firsts(ks, places) && v.Dict? && |v.keys| == |v.values| == |places|
    && forall k | 0 <= k < |places| ::
         places[k] < |ks| && places[k] < |vs| && v.keys[k] == ks[places[k]] && v.values[k] == vs[places[k]]
  }

  lemma AssembledDict(vals: seq<Value>, n: nat) returns (places: seq<nat>)
    requires |vals| == 2 * n
    ensures IsDictOf(Assemble(DictKind, vals), vals[..n], vals[n..], places)
  {
    places := Kept(vals[..n], n);
    KeptAreFirsts(vals[..n]);
  }

  /** Keys of which no two are equal are all kept, each with its value. */
  lemma AssembledApart(ks: seq<Value>, vs: seq<Value>)
    requires |ks| == |vs| && forall i, j | 0 <= i < j < |ks| :: !Equal(ks[i], ks[j])
    ensures Assemble(DictKind, ks + vs) == Dict(ks, vs)
  {
    KeptAll(ks, |ks|);
    assert (ks + vs)[..|ks|] == ks && (ks + vs)[|ks|..] == vs;
  }

  ghost function Strings(strs: seq<seq<Bytes.unichar>>): (r: seq<Value>)
    ensures |r| == |strs|
  {
    seq(|strs|, i requires 0 <= i < |strs| => Str(strs[i]))
  }

  /** Pairwise different strings are keys of their own. */
  lemma StringsApart(strs: seq<seq<Bytes.unichar>>, vs: seq<Value>)
    requires |strs| == |vs| && forall i, j | 0 <= i < j < |strs| :: strs[i] != strs[j]
    ensures Assemble(DictKind, Strings(strs) + vs) == Dict(Strings(strs), vs)
  {
    AssembledApart(Strings(strs), vs);
  }

  // ----- Object graphs -----

  /** The values of the objects, in order. */
  ghost function Unfolded(st: Store, rank: map<Id, nat>, ids: seq<Id>): (r: seq<Value>)
    requires Acyclic(st, rank) && forall i | 0 <= i < |ids| :: ids[i] in st
    ensures |r| == |ids| && forall i | 0 <= i < |ids| :: r[i] == Unfold(st, rank, ids[i])
  {
    seq(|ids|, i requires 0 <= i < |ids| => Unfold(st, rank, ids[i]))
  }

  lemma UnfoldedChildren(st: Store, rank: map<Id, nat>, ids: seq<Id>, bound: nat)
    requires Acyclic(st, rank) && Below(st, rank, ids, bound)
    ensures forall i | 0 <= i < |ids| :: ids[i] in st
    ensures var ts := TreesAt(st, rank, ids, bound);
            seq(|ts|, i requires 0 <= i < |ts| => Shared(ts[i])) == Unfolded(st, rank, ids)
  {
    assert forall i | 0 <= i < |ids| :: ids[i] in ids;
  }

  /** An object stands for its value, an array for the values of its elements in order. */
  lemma UnfoldedArray(st: Store, rank: map<Id, nat>, id: Id)
    requires Acyclic(st, rank) && id in st
    ensures st[id].Leaf? ==> Unfold(st, rank, id) == st[id].value
    ensures st[id].ArrayNode? ==>
              && (forall i | 0 <= i < |st[id].elems| :: st[id].elems[i] in st)
              && Unfold(st, rank, id) == Array(Unfolded(st, rank, st[id].elems))
  {
    assert NodeBelow(st, rank, id);
    if st[id].ArrayNode? {
      UnfoldedChildren(st, rank, st[id].elems, rank[id]);
    }
  }

  lemma UnfoldedBoth(st: Store, rank: map<Id, nat>, ks: seq<Id>, vs: seq<Id>)
    requires Acyclic(st, rank) && forall i | 0 <= i < |ks + vs| :: (ks + vs)[i] in st
    ensures (forall i | 0 <= i < |ks| :: ks[i] in st) && forall i | 0 <= i < |vs| :: vs[i] in st
    ensures Unfolded(st, rank, ks + vs)[..|ks|] == Unfolded(st, rank, ks)
    ensures Unfolded(st, rank, ks + vs)[|ks|..] == Unfolded(st, rank, vs)
  {
    forall i | 0 <= i < |ks| ensures ks[i] in st {
      assert (ks + vs)[i] == ks[i];
    }
    forall i | 0 <= i < |vs| ensures vs[i] in st {
      assert (ks + vs)[|ks| + i] == vs[i];
    }
  }

  lemma UnfoldedPairs(st: Store, rank: map<Id, nat>, id: Id)
    requires Acyclic(st, rank) && id in st && st[id].DictNode?
    ensures |st[id].keys| == |st[id].values|
    ensures forall i | 0 <= i < |st[id].Children()| :: st[id].Children()[i] in st
    ensures Unfold(st, rank, id) == Assemble(DictKind, Unfolded(st, rank, st[id].Children()))
  {
    assert NodeBelow(st, rank, id);
    UnfoldedChildren(st, rank, st[id].keys + st[id].values, rank[id]);
  }

  /** A dictionary stands for one with the first of each group of equal keys, with its value. */
  lemma UnfoldedDict(st: Store, rank: map<Id, nat>, id: Id) returns (places: seq<nat>)
    requires Acyclic(st, rank) && id in st && st[id].DictNode?
    ensures (forall i | 0 <= i < |st[id].keys| :: st[id].keys[i] in st)
            && forall i | 0 <= i < |st[id].values| :: st[id].values[i] in st
    ensures IsDictOf(Unfold(st, rank, id), Unfolded(st, rank, st[id].keys), Unfolded(st, rank, st[id].values), places)
  {
    UnfoldedPairs(st, rank, id);
    UnfoldedBoth(st, rank, st[id].keys, st[id].values);
    places := AssembledDict(Unfolded(st, rank, st[id].keys + st[id].values), |st[id].keys|);
  }
}
