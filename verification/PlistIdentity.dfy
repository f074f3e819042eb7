/**
 What the memo table changes: with it a UID of the file becomes one object, without it one object
 for each reference. UIDs are equal only if they are the same object, so equal keys and members
 may be merged with the table that are kept apart without it, and nothing else changes.
 */
module PlistIdentity {
  import opened Bytes
  import opened Plist
  import opened PlistDecode
  import opened PlistValues

  // ----- Addresses in values -----

  /** A UID at `a` is part of the value. */
  ghost predicate Mentions(v: Value, a: Address) {
    match v
    case Uid(_, at) => at == a
    case Array(es) => exists i :: 0 <= i < |es| && Mentions(es[i], a)
    case Set(ms) => exists i :: 0 <= i < |ms| && Mentions(ms[i], a)
    case Dict(ks, vs) => exists i :: 0 <= i < |ks| && i < |vs| && (Mentions(ks[i], a) || Mentions(vs[i], a))
    case _ => false
  }

  ghost predicate ClassMentions(c: Class, a: Address) {
    match c
    case Number(_) => false
    case Same(v) => v.Uid? && v.at == a
    case List(es) => exists i :: 0 <= i < |es| && ClassMentions(es[i], a)
    case Members(ms) => exists x | x in ms :: ClassMentions(x, a)
    case Entries(es) => exists e | e in es :: ClassMentions(e.0, a) || ClassMentions(e.1, a)
  }

  ghost predicate HasUid(v: Value) {
    exists a :: Mentions(v, a)
  }

  ghost predicate MentionsAlike(v: Value, a: Address) {
    Mentions(v, a) <==> ClassMentions(ClassOf(v), a)
  }

  lemma ArrayMentions(es: seq<Value>, a: Address)
    requires forall i | 0 <= i < |es| :: MentionsAlike(es[i], a)
    ensures MentionsAlike(Array(es), a)
  {
    var cs := ClassOf(Array(es)).elems;
    assert forall i | 0 <= i < |es| :: cs[i] == ClassOf(es[i]);
    if i :| 0 <= i < |es| && Mentions(es[i], a) {
      assert MentionsAlike(es[i], a);
      assert ClassMentions(cs[i], a);
    }
    if i :| 0 <= i < |cs| && ClassMentions(cs[i], a) {
      assert MentionsAlike(es[i], a);
    }
  }

  lemma SetMentions(ms: seq<Value>, a: Address)
    requires forall i | 0 <= i < |ms| :: MentionsAlike(ms[i], a)
    ensures MentionsAlike(Set(ms), a)
  {
    var cs := ClassOf(Set(ms)).members;
    if i :| 0 <= i < |ms| && Mentions(ms[i], a) {
      assert MentionsAlike(ms[i], a);
      assert ClassOf(ms[i]) in cs;
    }
    if c :| c in cs && ClassMentions(c, a) {
      var i :| 0 <= i < |ms| && ClassOf(ms[i]) == c;
      assert MentionsAlike(ms[i], a);
    }
  }

  lemma MentionsEntry(ks: seq<Value>, vs: seq<Value>, a: Address, i: nat)
    requires i < |ks| && i < |vs| && MentionsAlike(ks[i], a) && MentionsAlike(vs[i], a) &&
             (Mentions(ks[i], a) || Mentions(vs[i], a))
    ensures ClassMentions(ClassOf(Dict(ks, vs)), a)
  {
    var e := (ClassOf(ks[i]), ClassOf(vs[i]));
    assert e in ClassOf(Dict(ks, vs)).entries;
    assert ClassMentions(e.0, a) || ClassMentions(e.1, a);
  }

  lemma EntryMentions(ks: seq<Value>, vs: seq<Value>, a: Address) returns (i: nat)
    requires ClassMentions(ClassOf(Dict(ks, vs)), a)
    ensures i < |ks| && i < |vs| && (ClassMentions(ClassOf(ks[i]), a) || ClassMentions(ClassOf(vs[i]), a))
  {
    var e :| e in ClassOf(Dict(ks, vs)).entries && (ClassMentions(e.0, a) || ClassMentions(e.1, a));
    i :| 0 <= i < |ks| && i < |vs| && (ClassOf(ks[i]), ClassOf(vs[i])) == e;
  }

  lemma DictMentions(ks: seq<Value>, vs: seq<Value>, a: Address)
    requires forall i | 0 <= i < |ks| :: MentionsAlike(ks[i], a)
    requires forall i | 0 <= i < |vs| :: MentionsAlike(vs[i], a)
    ensures MentionsAlike(Dict(ks, vs), a)
  {
    if i :| 0 <= i < |ks| && i < |vs| && (Mentions(ks[i], a) || Mentions(vs[i], a)) {
      MentionsEntry(ks, vs, a, i);
    }
    if ClassMentions(ClassOf(Dict(ks, vs)), a) {
      var i := EntryMentions(ks, vs, a);
      assert MentionsAlike(ks[i], a) && MentionsAlike(vs[i], a);
    }
  }

  lemma {:induction false} MentionsByClass(v: Value, a: Address)
    ensures MentionsAlike(v, a)
  {
    match v
    case Array(es) =>
      forall i | 0 <= i < |es| ensures MentionsAlike(es[i], a) {
        MentionsByClass(es[i], a);
      }
      ArrayMentions(es, a);
    case Set(ms) =>
      forall i | 0 <= i < |ms| ensures MentionsAlike(ms[i], a) {
        MentionsByClass(ms[i], a);
      }
      SetMentions(ms, a);
    case Dict(ks, vs) =>
      forall i | 0 <= i < |ks| ensures MentionsAlike(ks[i], a) {
        MentionsByClass(ks[i], a);
      }
      forall i | 0 <= i < |vs| ensures MentionsAlike(vs[i], a) {
        MentionsByClass(vs[i], a);
      }
      DictMentions(ks, vs, a);
    case _ =>
  }

  /** Equal values have the same UIDs in them. */
  lemma EqualMentions(v: Value, w: Value, a: Address)
    requires Equal(v, w)
    ensures Mentions(v, a) <==> Mentions(w, a)
  {
    MentionsByClass(v, a);
    MentionsByClass(w, a);
  }

  lemma EqualHaveUid(v: Value, w: Value)
    requires Equal(v, w)
    ensures HasUid(v) <==> HasUid(w)
  {
    forall a: Address ensures Mentions(v, a) <==> Mentions(w, a) {
      EqualMentions(v, w, a);
    }
  }

  // ----- What is kept -----

  lemma {:induction false} KeptAlike(s: seq<Value>, t: seq<Value>, n: nat)
    requires n <= |s| && n <= |t| && forall j | 0 <= j < n :: Repeats(s, j) <==> Repeats(t, j)
    ensures Kept(s, n) == Kept(t, n)
  {
    if n > 0 {
      KeptAlike(s, t, n - 1);
    }
  }

  /** What repeats more keeps less. */
  lemma {:induction false} KeptLess(s: seq<Value>, t: seq<Value>, n: nat)
    requires n <= |s| && n <= |t| && forall j | 0 <= j < n :: Repeats(t, j) ==> Repeats(s, j)
    ensures |Kept(s, n)| <= |Kept(t, n)|
    ensures (exists j :: 0 <= j < n && Repeats(s, j) && !Repeats(t, j)) ==> |Kept(s, n)| < |Kept(t, n)|
  {
    if n > 0 {
      KeptLess(s, t, n - 1);
    }
  }

  /** Every value has an equal one among those that are kept. */
  lemma {:induction false} KeptCovers(s: seq<Value>, j: nat) returns (k: nat)
    requires j < |s|
    ensures k <= j && k in Kept(s, |s|) && Equal(s[k], s[j])
    decreases j
  {
    if Repeats(s, j) {
      var i :| 0 <= i < j && Equal(s[i], s[j]);
      k := KeptCovers(s, i);
    } else {
      KeptIs(s, |s|, j);
      k := j;
    }
  }

  lemma AssembleMentions(kind: Kind, vals: seq<Value>, a: Address)
    requires Mentions(Assemble(kind, vals), a)
    ensures exists i :: 0 <= i < |vals| && Mentions(vals[i], a)
  {
    if kind == DictKind {
      var h := |vals| / 2;
      var ks, vs := vals[..h], vals[h..];
      var kept := Kept(ks, h);
      var i :| 0 <= i < |kept| && (Mentions(Pick(ks, kept)[i], a) || Mentions(Pick(vs, kept)[i], a));
      assert ks[kept[i]] == vals[kept[i]] && vs[kept[i]] == vals[h + kept[i]];
    }
  }

  // ----- The two ways of making a tree -----

  ghost function SharedAll(ts: seq<Tree>): (vals: seq<Value>)
    ensures |vals| == |ts|
  {
    seq(|ts|, i requires 0 <= i < |ts| => Shared(ts[i]))
  }

  ghost function SeparateAll(ts: seq<Tree>, place: seq<nat>): (vals: seq<Value>)
    ensures |vals| == |ts|
  {
    seq(|ts|, i requires 0 <= i < |ts| => Separate(ts[i], place + [i]))
  }

  /** UIDs that are made anew lie at the places below the one where the tree is made. */
  lemma {:induction false} MadeBelow(t: Tree, place: seq<nat>, a: Address)
    ensures Mentions(Separate(t, place), a) ==> a.Occurrence? && place <= a.path
    decreases t
  {
    match t
    case Atom(v) =>
    case Branch(kind, cs) =>
      var vals := SeparateAll(cs, place);
      assert Separate(t, place) == Assemble(kind, vals);
      if Mentions(Assemble(kind, vals), a) {
        AssembleMentions(kind, vals, a);
        var i :| 0 <= i < |vals| && Mentions(vals[i], a);
        MadeBelow(cs[i], place + [i], a);
        assert place <= place + [i];
      }
  }

  lemma Prefixes(p: seq<nat>, i: nat, j: nat, path: seq<nat>)
    requires i != j
    ensures !(p + [i] <= path && p + [j] <= path)
  {
    if p + [i] <= path {
      assert path[|p|] == (p + [i])[|p|] == i;
    }
  }

  /** Siblings made anew have no UID in common. */
  lemma NoCommonUid(cs: seq<Tree>, place: seq<nat>, i: nat, j: nat, a: Address)
    requires i < j < |cs|
    ensures !(Mentions(Separate(cs[i], place + [i]), a) && Mentions(Separate(cs[j], place + [j]), a))
  {
    MadeBelow(cs[i], place + [i], a);
    MadeBelow(cs[j], place + [j], a);
    if a.Occurrence? {
      Prefixes(place, i, j, a.path);
    }
  }

  /**
   What is known of children made both ways: they have UIDs alike, and are equal to a sibling only
   if they have none.
   */
  ghost predicate Parallel(a: seq<Value>, b: seq<Value>) {
    && |a| == |b|
    && (forall i | 0 <= i < |a| :: HasUid(b[i]) <==> HasUid(a[i]))
    && (forall i | 0 <= i < |a| :: !HasUid(a[i]) ==> b[i] == a[i])
    && (forall i, j | 0 <= i < j < |a| :: Equal(b[i], b[j]) <==> Equal(a[i], a[j]) && !HasUid(a[i]))
  }

  /** Two places in a row with equal values that have a UID in them. */
  ghost predicate DoubleUid(a: seq<Value>) {
    exists i, j :: 0 <= i < j < |a| && Equal(a[i], a[j]) && HasUid(a[i])
  }

  lemma ParallelPart(a: seq<Value>, b: seq<Value>, n: nat)
    requires Parallel(a, b) && n <= |a|
    ensures Parallel(a[..n], b[..n])
  {
  }

  lemma ParallelRepeats(a: seq<Value>, b: seq<Value>, j: nat)
    requires Parallel(a, b) && j < |a|
    ensures Repeats(b, j) <==> Repeats(a, j) && !HasUid(a[j])
  {
    forall i | 0 <= i < j ensures Equal(b[i], b[j]) <==> Equal(a[i], a[j]) && !HasUid(a[j]) {
      if Equal(a[i], a[j]) {
        EqualHaveUid(a[i], a[j]);
      }
    }
  }

  /** More is kept of what is made anew, and the same if no UID is doubled. */
  lemma ParallelKept(a: seq<Value>, b: seq<Value>)
    requires Parallel(a, b)
    ensures |Kept(a, |a|)| <= |Kept(b, |b|)|
    ensures DoubleUid(a) ==> |Kept(a, |a|)| < |Kept(b, |b|)|
    ensures !DoubleUid(a) ==> Kept(a, |a|) == Kept(b, |b|)
    ensures forall j | j in Kept(a, |a|) :: j in Kept(b, |b|)
  {
    forall j | 0 <= j < |a| ensures Repeats(b, j) <==> Repeats(a, j) && !HasUid(a[j]) {
      ParallelRepeats(a, b, j);
    }
    KeptLess(a, b, |a|);
    if DoubleUid(a) {
      var i, j :| 0 <= i < j < |a| && Equal(a[i], a[j]) && HasUid(a[i]);
      EqualHaveUid(a[i], a[j]);
      assert Repeats(a, j) && !Repeats(b, j);
    } else {
      forall j | 0 <= j < |a| && Repeats(a, j) ensures !HasUid(a[j]) {
        var i :| 0 <= i < j && Equal(a[i], a[j]);
        EqualHaveUid(a[i], a[j]);
      }
      KeptAlike(a, b, |a|);
    }
    forall j | j in Kept(a, |a|) ensures j in Kept(b, |b|) {
      KeptIs(a, |a|, j);
      KeptIs(b, |b|, j);
    }
  }

  // ----- Containers made both ways -----

  lemma ArrayHasUid(es: seq<Value>)
    ensures HasUid(Array(es)) <==> exists i :: 0 <= i < |es| && HasUid(es[i])
  {
    if i :| 0 <= i < |es| && HasUid(es[i]) {
      var a :| Mentions(es[i], a);
      assert Mentions(Array(es), a);
    }
    if a :| Mentions(Array(es), a) {
      var i :| 0 <= i < |es| && Mentions(es[i], a);
      assert HasUid(es[i]);
    }
  }

  lemma SetHasUid(ms: seq<Value>)
    ensures HasUid(Set(ms)) <==> exists i :: 0 <= i < |ms| && HasUid(ms[i])
  {
    if i :| 0 <= i < |ms| && HasUid(ms[i]) {
      var a :| Mentions(ms[i], a);
      assert Mentions(Set(ms), a);
    }
    if a :| Mentions(Set(ms), a) {
      var i :| 0 <= i < |ms| && Mentions(ms[i], a);
      assert HasUid(ms[i]);
    }
  }

  lemma DictHasUid(ks: seq<Value>, vs: seq<Value>)
    requires |ks| == |vs|
    ensures HasUid(Dict(ks, vs)) <==> exists i :: 0 <= i < |ks| && (HasUid(ks[i]) || HasUid(vs[i]))
  {
    if i :| 0 <= i < |ks| && (HasUid(ks[i]) || HasUid(vs[i])) {
      var a :| Mentions(ks[i], a) || Mentions(vs[i], a);
      assert Mentions(Dict(ks, vs), a);
    }
    if a :| Mentions(Dict(ks, vs), a) {
      var i :| 0 <= i < |ks| && (Mentions(ks[i], a) || Mentions(vs[i], a));
      assert HasUid(ks[i]) || HasUid(vs[i]);
    }
  }

  /** A UID among all values is among those that are kept. */
  lemma KeptHasUid(s: seq<Value>)
    ensures (exists i :: 0 <= i < |s| && HasUid(s[i]))
            <==> exists k :: 0 <= k < |Kept(s, |s|)| && HasUid(Pick(s, Kept(s, |s|))[k])
  {
    var kept := Kept(s, |s|);
    if i :| 0 <= i < |s| && HasUid(s[i]) {
      var j := KeptCovers(s, i);
      EqualHaveUid(s[j], s[i]);
      var k :| 0 <= k < |kept| && kept[k] == j;
      assert HasUid(Pick(s, kept)[k]);
    }
    if k :| 0 <= k < |kept| && HasUid(Pick(s, kept)[k]) {
      assert HasUid(s[kept[k]]);
    }
  }

  ghost predicate AnyUid(s: seq<Value>) {
    exists i :: 0 <= i < |s| && HasUid(s[i])
  }

  lemma ParallelArray(a: seq<Value>, b: seq<Value>)
    requires Parallel(a, b)
    ensures HasUid(Array(b)) <==> HasUid(Array(a))
    ensures !HasUid(Array(a)) ==> b == a
  {
    ArrayHasUid(a);
    ArrayHasUid(b);
    if !HasUid(Array(a)) {
      assert forall i | 0 <= i < |a| :: b[i] == a[i];
    }
  }

  lemma ParallelSet(a: seq<Value>, b: seq<Value>)
    requires Parallel(a, b)
    ensures var x, y := Assemble(SetKind, a), Assemble(SetKind, b);
            (HasUid(y) <==> HasUid(x)) && (!HasUid(x) ==> y == x)
  {
    SetHasUid(Pick(a, Kept(a, |a|)));
    SetHasUid(Pick(b, Kept(b, |b|)));
    KeptHasUid(a);
    KeptHasUid(b);
    if !HasUid(Assemble(SetKind, a)) {
      assert forall i | 0 <= i < |a| :: !HasUid(a[i]);
      assert b == a;
    }
  }

  /** Keys and the values of those that are kept. */
  lemma DictUids(ks: seq<Value>, vs: seq<Value>)
    requires |ks| <= |vs|
    ensures var kept := Kept(ks, |ks|);
            HasUid(Dict(Pick(ks, kept), Pick(vs, kept))) <==> AnyUid(ks) || exists j :: j in kept && HasUid(vs[j])
  {
    var kept := Kept(ks, |ks|);
    DictHasUid(Pick(ks, kept), Pick(vs, kept));
    KeptHasUid(ks);
    if j :| j in kept && HasUid(vs[j]) {
      var k :| 0 <= k < |kept| && kept[k] == j;
      assert HasUid(Pick(vs, kept)[k]);
    }
  }

  lemma ParallelDict(ka: seq<Value>, va: seq<Value>, kb: seq<Value>, vb: seq<Value>)
    requires Parallel(ka, kb) && Parallel(va, vb) && |ka| <= |va|
    ensures var x := Dict(Pick(ka, Kept(ka, |ka|)), Pick(va, Kept(ka, |ka|)));
            var y := Dict(Pick(kb, Kept(kb, |kb|)), Pick(vb, Kept(kb, |kb|)));
            (HasUid(y) <==> HasUid(x)) && (!HasUid(x) ==> y == x)
  {
    DictUids(ka, va);
    DictUids(kb, vb);
    ParallelKept(ka, kb);
    if !AnyUid(ka) {
      assert forall i | 0 <= i < |ka| :: !HasUid(ka[i]);
      assert kb == ka;
    } else {
      var i :| 0 <= i < |ka| && HasUid(ka[i]);
      assert HasUid(kb[i]);
    }
  }

  lemma ParallelAssemble(kind: Kind, a: seq<Value>, b: seq<Value>)
    requires Parallel(a, b)
    ensures HasUid(Assemble(kind, b)) <==> HasUid(Assemble(kind, a))
    ensures !HasUid(Assemble(kind, a)) ==> Assemble(kind, b) == Assemble(kind, a)
  {
    match kind
    case ArrayKind => ParallelArray(a, b);
    case SetKind => ParallelSet(a, b);
    case DictKind =>
      var h := |a| / 2;
      ParallelPart(a, b, h);
      ParallelRest(a, b, h);
      ParallelDict(a[..h], a[h..], b[..h], b[h..]);
  }

  lemma ParallelRest(a: seq<Value>, b: seq<Value>, n: nat)
    requires Parallel(a, b) && n <= |a|
    ensures Parallel(a[n..], b[n..])
  {
    assert forall i | 0 <= i < |a| - n :: a[n..][i] == a[n + i] && b[n..][i] == b[n + i];
  }

  // ----- Trees made both ways -----

  ghost predicate Alike(t: Tree, place: seq<nat>) {
    var a, b := Shared(t), Separate(t, place);
    (HasUid(b) <==> HasUid(a)) && (!HasUid(a) ==> b == a)
  }

  lemma {:induction false} MadeAlike(t: Tree, place: seq<nat>)
    ensures Alike(t, place)
    decreases t, 1
  {
    match t
    case Atom(v) =>
      if v.Uid? {
        assert Mentions(v, v.at) && Mentions(AtomAt(v, place), Occurrence(place));
      }
    case Branch(kind, cs) =>
      forall i | 0 <= i < |cs| ensures Alike(cs[i], place + [i]) {
        MadeAlike(cs[i], place + [i]);
      }
      ChildrenParallel(cs, place);
      ParallelAssemble(kind, SharedAll(cs), SeparateAll(cs, place));
      BothMade(kind, cs, place);
  }

  lemma BothMade(kind: Kind, cs: seq<Tree>, place: seq<nat>)
    ensures Shared(Branch(kind, cs)) == Assemble(kind, SharedAll(cs))
    ensures Separate(Branch(kind, cs), place) == Assemble(kind, SeparateAll(cs, place))
  {
  }

  lemma ChildrenParallel(cs: seq<Tree>, place: seq<nat>)
    requires forall i | 0 <= i < |cs| :: Alike(cs[i], place + [i])
    ensures Parallel(SharedAll(cs), SeparateAll(cs, place))
  {
    var a, b := SharedAll(cs), SeparateAll(cs, place);
    forall i | 0 <= i < |cs| ensures (HasUid(b[i]) <==> HasUid(a[i])) && (!HasUid(a[i]) ==> b[i] == a[i]) {
      assert Alike(cs[i], place + [i]);
    }
    forall i, j | 0 <= i < j < |cs| ensures Equal(b[i], b[j]) <==> Equal(a[i], a[j]) && !HasUid(a[i]) {
      assert Alike(cs[i], place + [i]) && Alike(cs[j], place + [j]);
      Siblings(cs, place, i, j);
    }
  }

  /** Of siblings made anew two are equal only if they have no UID in them. */
  lemma Siblings(cs: seq<Tree>, place: seq<nat>, i: nat, j: nat)
    requires i < j < |cs| && Alike(cs[i], place + [i]) && Alike(cs[j], place + [j])
    ensures Equal(Separate(cs[i], place + [i]), Separate(cs[j], place + [j]))
            <==> Equal(Shared(cs[i]), Shared(cs[j])) && !HasUid(Shared(cs[i]))
  {
    var x, y := Separate(cs[i], place + [i]), Separate(cs[j], place + [j]);
    if Equal(x, y) {
      EqualHaveUid(x, y);
      forall a: Address ensures !Mentions(x, a) {
        EqualMentions(x, y, a);
        NoCommonUid(cs, place, i, j, a);
      }
    }
    if Equal(Shared(cs[i]), Shared(cs[j])) {
      EqualHaveUid(Shared(cs[i]), Shared(cs[j]));
    }
  }

  // ----- Up to addresses -----

  /** A value without the addresses of its UIDs. */
  ghost function Bare(v: Value): Value {
    match v
    case Uid(u, _) => Uid(u, Object(0))
    case Array(es) => Array(seq(|es|, i requires 0 <= i < |es| => Bare(es[i])))
    case Set(ms) => Set(seq(|ms|, i requires 0 <= i < |ms| => Bare(ms[i])))
    case Dict(ks, vs) => Dict(seq(|ks|, i requires 0 <= i < |ks| => Bare(ks[i])),
                              seq(|vs|, i requires 0 <= i < |vs| => Bare(vs[i])))
    case _ => v
  }

  /** The same property list, but for the addresses of UIDs. */
  ghost predicate Agree(v: Value, w: Value) {
    Bare(v) == Bare(w)
  }

  ghost predicate AllAgree(a: seq<Value>, b: seq<Value>) {
    |a| == |b| && forall i | 0 <= i < |a| :: Agree(a[i], b[i])
  }

  ghost function AllBare(s: seq<Value>): seq<Value> {
    seq(|s|, i requires 0 <= i < |s| => Bare(s[i]))
  }

  lemma AllAgreeMeans(a: seq<Value>, b: seq<Value>)
    ensures AllAgree(a, b) <==> AllBare(a) == AllBare(b)
  {
    if AllBare(a) == AllBare(b) {
      forall i | 0 <= i < |a| ensures Agree(a[i], b[i]) {
        assert AllBare(a)[i] == AllBare(b)[i];
      }
    }
  }

  /** Primitives agree if they are the same, UIDs if their numbers are, and containers of one kind part by part. */
  lemma AgreeMeans(v: Value, w: Value)
    ensures Agree(v, w)
            <==> || (v.Primitive() && v == w)
                 || (v.Uid? && w.Uid? && v.uid == w.uid)
                 || (v.Array? && w.Array? && AllAgree(v.elems, w.elems))
                 || (v.Set? && w.Set? && AllAgree(v.members, w.members))
                 || (v.Dict? && w.Dict? && AllAgree(v.keys, w.keys) && AllAgree(v.values, w.values))
  {
    if v.Array? && w.Array? {
      AllAgreeMeans(v.elems, w.elems);
      assert Bare(v) == Array(AllBare(v.elems)) && Bare(w) == Array(AllBare(w.elems));
    } else if v.Set? && w.Set? {
      AllAgreeMeans(v.members, w.members);
      assert Bare(v) == Set(AllBare(v.members)) && Bare(w) == Set(AllBare(w.members));
    } else if v.Dict? && w.Dict? {
      AllAgreeMeans(v.keys, w.keys);
      AllAgreeMeans(v.values, w.values);
      assert Bare(v) == Dict(AllBare(v.keys), AllBare(v.values));
      assert Bare(w) == Dict(AllBare(w.keys), AllBare(w.values));
    }
  }

  /** Pairwise at the places that are kept. */
  ghost predicate AgreeAt(a: seq<Value>, b: seq<Value>, places: seq<nat>)
    requires |a| == |b| && forall i | 0 <= i < |places| :: places[i] < |a|
  {
    forall j | j in places :: Agree(a[j], b[j])
  }

  lemma PickAgree(a: seq<Value>, b: seq<Value>, places: seq<nat>)
    requires |a| == |b| && forall i | 0 <= i < |places| :: places[i] < |a|
    ensures (forall i | 0 <= i < |places| :: Agree(Pick(a, places)[i], Pick(b, places)[i])) <==> AgreeAt(a, b, places)
  {
    if forall i | 0 <= i < |places| :: Agree(Pick(a, places)[i], Pick(b, places)[i]) {
      forall j | j in places ensures Agree(a[j], b[j]) {
        var i :| 0 <= i < |places| && places[i] == j;
        assert Agree(Pick(a, places)[i], Pick(b, places)[i]);
      }
    }
  }

  lemma ListsAgree(a: seq<Value>, b: seq<Value>)
    ensures Agree(Array(a), Array(b)) <==> |a| == |b| && forall i | 0 <= i < |a| :: Agree(a[i], b[i])
    ensures Agree(Set(a), Set(b)) <==> Agree(Array(a), Array(b))
  {
    var x, y := Bare(Array(a)).elems, Bare(Array(b)).elems;
    if |a| == |b| && forall i | 0 <= i < |a| :: Agree(a[i], b[i]) {
      assert forall i | 0 <= i < |a| :: x[i] == y[i];
    }
    if x == y {
      forall i | 0 <= i < |a| ensures Agree(a[i], b[i]) {
        assert x[i] == y[i];
      }
    }
    assert Bare(Set(a)).members == x && Bare(Set(b)).members == y;
  }

  lemma DictsAgree(ka: seq<Value>, va: seq<Value>, kb: seq<Value>, vb: seq<Value>)
    ensures Agree(Dict(ka, va), Dict(kb, vb)) <==> Agree(Array(ka), Array(kb)) && Agree(Array(va), Array(vb))
  {
    assert Bare(Dict(ka, va)).keys == Bare(Array(ka)).elems && Bare(Dict(kb, vb)).keys == Bare(Array(kb)).elems;
    assert Bare(Dict(ka, va)).values == Bare(Array(va)).elems && Bare(Dict(kb, vb)).values == Bare(Array(vb)).elems;
  }

  /** Sets agree exactly if no member with a UID is doubled and the members that are kept agree. */
  lemma SetsAgree(a: seq<Value>, b: seq<Value>)
    requires Parallel(a, b)
    ensures Agree(Assemble(SetKind, a), Assemble(SetKind, b)) <==> !DoubleUid(a) && AgreeAt(a, b, Kept(a, |a|))
  {
    var p, q := Kept(a, |a|), Kept(b, |b|);
    ParallelKept(a, b);
    ListsAgree(Pick(a, p), Pick(b, q));
    if !DoubleUid(a) {
      PickAgree(a, b, p);
    }
  }

  /** Dictionaries agree exactly if no UID is doubled among the keys and the entries that are kept agree. */
  lemma DictionariesAgree(ka: seq<Value>, va: seq<Value>, kb: seq<Value>, vb: seq<Value>)
    requires Parallel(ka, kb) && |ka| <= |va| == |vb|
    ensures Agree(Dict(Pick(ka, Kept(ka, |ka|)), Pick(va, Kept(ka, |ka|))),
                  Dict(Pick(kb, Kept(kb, |kb|)), Pick(vb, Kept(kb, |kb|))))
            <==> !DoubleUid(ka) && AgreeAt(ka, kb, Kept(ka, |ka|)) && AgreeAt(va, vb, Kept(ka, |ka|))
  {
    var p, q := Kept(ka, |ka|), Kept(kb, |kb|);
    ParallelKept(ka, kb);
    DictsAgree(Pick(ka, p), Pick(va, p), Pick(kb, q), Pick(vb, q));
    ListsAgree(Pick(ka, p), Pick(kb, q));
    ListsAgree(Pick(va, p), Pick(vb, q));
    if !DoubleUid(ka) {
      PickAgree(ka, kb, p);
      PickAgree(va, vb, p);
    }
  }

  /**
   No set that is kept has two equal members with a UID in them, and no dictionary that is kept two
   equal keys that are UIDs: two references to one UID of the file.
   */
  ghost predicate NoDoubles(t: Tree) {
    match t
    case Atom(_) => true
    case Branch(kind, cs) =>
      var vals := SharedAll(cs);
      match kind
      case ArrayKind => forall i | 0 <= i < |cs| :: NoDoubles(cs[i])
      case SetKind => !DoubleUid(vals) && forall i | 0 <= i < |cs| && i in Kept(vals, |vals|) :: NoDoubles(cs[i])
      case DictKind =>
        var h := |cs| / 2;
        && !DoubleUid(vals[..h])
        && forall i | 0 <= i < h && i in Kept(vals[..h], h) :: NoDoubles(cs[i]) && NoDoubles(cs[h + i])
  }

  /** What has been shown of a child. */
  ghost predicate ChildOk(t: Tree, place: seq<nat>) {
    Alike(t, place) && (Agree(Shared(t), Separate(t, place)) <==> NoDoubles(t))
  }

  lemma KeptTreesAgree(a: seq<Value>, b: seq<Value>, ts: seq<Tree>, places: seq<nat>)
    requires |a| == |b| == |ts| && forall i | 0 <= i < |places| :: places[i] < |a|
    requires forall i | 0 <= i < |a| :: Agree(a[i], b[i]) <==> NoDoubles(ts[i])
    ensures AgreeAt(a, b, places) <==> forall i | 0 <= i < |ts| && i in places :: NoDoubles(ts[i])
  {
  }

  lemma SetAgrees(cs: seq<Tree>, place: seq<nat>)
    requires Parallel(SharedAll(cs), SeparateAll(cs, place))
    requires forall i | 0 <= i < |cs| :: Agree(SharedAll(cs)[i], SeparateAll(cs, place)[i]) <==> NoDoubles(cs[i])
    ensures Agree(Assemble(SetKind, SharedAll(cs)), Assemble(SetKind, SeparateAll(cs, place)))
            <==> NoDoubles(Branch(SetKind, cs))
  {
    var a, b := SharedAll(cs), SeparateAll(cs, place);
    SetsAgree(a, b);
    KeptTreesAgree(a, b, cs, Kept(a, |a|));
  }

  lemma EntryTreesAgree(a: seq<Value>, b: seq<Value>, cs: seq<Tree>, h: nat, places: seq<nat>)
    requires |a| == |b| == |cs| && h == |cs| / 2 && forall i | 0 <= i < |places| :: places[i] < h
    requires forall i | 0 <= i < |cs| :: Agree(a[i], b[i]) <==> NoDoubles(cs[i])
    ensures AgreeAt(a[..h], b[..h], places) && AgreeAt(a[h..], b[h..], places)
            <==> forall i | 0 <= i < h && i in places :: NoDoubles(cs[i]) && NoDoubles(cs[h + i])
  {
    KeptTreesAgree(a[..h], b[..h], cs[..h], places);
    KeptTreesAgree(a[h..], b[h..], cs[h..], places);
    assert forall i | 0 <= i < h :: cs[..h][i] == cs[i] && cs[h..][i] == cs[h + i];
    if forall i | 0 <= i < h && i in places :: NoDoubles(cs[i]) && NoDoubles(cs[h + i]) {
      forall i | 0 <= i < |cs[h..]| && i in places ensures NoDoubles(cs[h..][i]) {
        var k :| 0 <= k < |places| && places[k] == i;
      }
    }
  }

  lemma AssembledAgree(a: seq<Value>, b: seq<Value>, h: nat)
    requires Parallel(a, b) && h == |a| / 2
    ensures Agree(Assemble(DictKind, a), Assemble(DictKind, b))
            <==>
            && !DoubleUid(a[..h])
            && AgreeAt(a[..h], b[..h], Kept(a[..h], h)) && AgreeAt(a[h..], b[h..], Kept(a[..h], h))
  {
    ParallelPart(a, b, h);
    DictionariesAgree(a[..h], a[h..], b[..h], b[h..]);
  }

  lemma NoDoublesInDict(cs: seq<Tree>, h: nat)
    requires h == |cs| / 2
    ensures var kept := Kept(SharedAll(cs)[..h], h);
            NoDoubles(Branch(DictKind, cs))
            <==>
            && !DoubleUid(SharedAll(cs)[..h])
            && forall i | 0 <= i < h && i in kept :: NoDoubles(cs[i]) && NoDoubles(cs[h + i])
  {
  }

  lemma DictAgrees(cs: seq<Tree>, place: seq<nat>, h: nat)
    requires h == |cs| / 2 && Parallel(SharedAll(cs), SeparateAll(cs, place))
    requires forall i | 0 <= i < |cs| :: Agree(SharedAll(cs)[i], SeparateAll(cs, place)[i]) <==> NoDoubles(cs[i])
    ensures Agree(Assemble(DictKind, SharedAll(cs)), Assemble(DictKind, SeparateAll(cs, place)))
            <==> NoDoubles(Branch(DictKind, cs))
  {
    var a, b := SharedAll(cs), SeparateAll(cs, place);
    EntryTreesAgree(a, b, cs, h, Kept(a[..h], h));
    AssembledAgree(a, b, h);
    NoDoublesInDict(cs, h);
  }

  lemma ArrayAgrees(cs: seq<Tree>, place: seq<nat>)
    requires forall i | 0 <= i < |cs| :: Agree(SharedAll(cs)[i], SeparateAll(cs, place)[i]) <==> NoDoubles(cs[i])
    ensures Agree(Array(SharedAll(cs)), Array(SeparateAll(cs, place))) <==> NoDoubles(Branch(ArrayKind, cs))
  {
    ListsAgree(SharedAll(cs), SeparateAll(cs, place));
  }

  lemma BranchAgrees(kind: Kind, cs: seq<Tree>, place: seq<nat>)
    requires forall i | 0 <= i < |cs| :: ChildOk(cs[i], place + [i])
    ensures Agree(Assemble(kind, SharedAll(cs)), Assemble(kind, SeparateAll(cs, place)))
            <==> NoDoubles(Branch(kind, cs))
  {
    ChildrenParallel(cs, place);
    forall i | 0 <= i < |cs| ensures Agree(SharedAll(cs)[i], SeparateAll(cs, place)[i]) <==> NoDoubles(cs[i]) {
      assert ChildOk(cs[i], place + [i]);
    }
    match kind
    case ArrayKind => ArrayAgrees(cs, place);
    case SetKind => SetAgrees(cs, place);
    case DictKind => DictAgrees(cs, place, |cs| / 2);
  }

  /** With and without a memo table the results are the same but for addresses, if and only if nothing is doubled. */
  lemma {:induction false} AgreeIffNoDoubles(t: Tree, place: seq<nat>)
    ensures Agree(Shared(t), Separate(t, place)) <==> NoDoubles(t)
    decreases t
  {
    match t
    case Atom(v) =>
    case Branch(kind, cs) =>
      forall i | 0 <= i < |cs| ensures ChildOk(cs[i], place + [i]) {
        MadeAlike(cs[i], place + [i]);
        AgreeIffNoDoubles(cs[i], place + [i]);
      }
      BothMade(kind, cs, place);
      BranchAgrees(kind, cs, place);
  }

  /** For keys, which are primitive, that is: the same UID of the file twice. */
  lemma DoubledKey(cs: seq<Tree>, h: nat)
    requires h <= |cs| && forall i | 0 <= i < h :: cs[i].Atom?
    ensures DoubleUid(SharedAll(cs)[..h]) <==> exists i, j :: 0 <= i < j < h && cs[i] == cs[j] && cs[i].value.Uid?
  {
    var ks := SharedAll(cs)[..h];
    forall i | 0 <= i < h ensures HasUid(ks[i]) <==> cs[i].value.Uid? {
      if cs[i].value.Uid? {
        assert Mentions(ks[i], cs[i].value.at);
      }
    }
    if DoubleUid(ks) {
      var i, j :| 0 <= i < j < h && Equal(ks[i], ks[j]) && HasUid(ks[i]);
      assert cs[i] == cs[j];
    }
    if i, j :| 0 <= i < j < h && cs[i] == cs[j] && cs[i].value.Uid? {
      assert Equal(ks[i], ks[j]) && HasUid(ks[i]);
    }
  }

  /** With and without the memo table the same files parse; to the same property list exactly if nothing is doubled. */
  method ParseBothWays(bytes: seq<byte>, option: Mutability) returns (memoised: Option<Value>, plain: Option<Value>)
    requires |bytes| < TWO64
    ensures memoised == Parse(bytes, true) && plain == Parse(bytes, false)
    ensures memoised.Some? <==> plain.Some?
    ensures memoised.Some? ==> (Agree(memoised.value, plain.value) <==> NoDoubles(TreeOf(bytes).value))
  {
    memoised := TryParse(bytes, option, true);
    plain := TryParse(bytes, option, false);
    if memoised.Some? {
      AgreeIffNoDoubles(TreeOf(bytes).value, []);
    }
  }
}
