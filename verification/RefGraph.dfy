/**
 The meaning of a graph of references between objects.

 `Decoded` is the value of the finite tree of references below an offset, if there
 is one: an offset from which a cycle or an unreadable object can be reached has none.
 */
module RefGraph {
  import opened Plist

  /** What lies at an offset: nothing readable, a finished value, or references and how to combine their values. */
  datatype Cell<!V> = Bad | Done(value: V) | Node(refs: seq<nat>, make: seq<V> -> Option<V>)

  type Graph<!V> = nat -> Cell<V>

  function Refs<V>(g: Graph<V>, off: nat): seq<nat> {
    if g(off).Node? then g(off).refs else []
  }

  /** The value below `off` when every path of references down from it has fewer than `fuel` steps. */
  ghost function Within<V>(g: Graph<V>, off: nat, fuel: nat): Option<V>
    decreases fuel, 0
  {
    if fuel == 0 then None
    else
      match g(off)
      case Bad => None
      case Done(v) => Some(v)
      case Node(refs, make) =>
        if forall i | 0 <= i < |refs| :: Within(g, refs[i], fuel - 1).Some?
        then make(Values(g, refs, fuel - 1))
        else None
  }

  ghost function Values<V>(g: Graph<V>, refs: seq<nat>, fuel: nat): (vals: seq<V>)
    requires forall i | 0 <= i < |refs| :: Within(g, refs[i], fuel).Some?
    ensures |vals| == |refs| && forall i | 0 <= i < |refs| :: vals[i] == Within(g, refs[i], fuel).value
    decreases fuel, 1
  {
    seq(|refs|, i requires 0 <= i < |refs| => Within(g, refs[i], fuel).value)
  }

  ghost function Decoded<V>(g: Graph<V>, off: nat): Option<V> {
    if exists fuel: nat :: Within(g, off, fuel).Some?
    then var fuel: nat :| Within(g, off, fuel).Some?; Within(g, off, fuel)
    else None
  }

  lemma {:induction false} MoreFuel<V>(g: Graph<V>, off: nat, f: nat, h: nat)
    requires f <= h && Within(g, off, f).Some?
    ensures Within(g, off, h) == Within(g, off, f)
    decreases f
  {
    match g(off)
    case Node(refs, make) =>
      forall i | 0 <= i < |refs| ensures Within(g, refs[i], h - 1) == Within(g, refs[i], f - 1) {
        MoreFuel(g, refs[i], f - 1, h - 1);
      }
      SameChildren(g, off, f, h);
    case _ =>
  }

  lemma SameChildren<V>(g: Graph<V>, off: nat, f: nat, h: nat)
    requires f > 0 && h > 0 && g(off).Node?
    requires forall i | 0 <= i < |g(off).refs| ::
               && Within(g, g(off).refs[i], f - 1).Some?
               && Within(g, g(off).refs[i], h - 1) == Within(g, g(off).refs[i], f - 1)
    ensures Within(g, off, h) == Within(g, off, f)
  {
    assert Values(g, g(off).refs, f - 1) == Values(g, g(off).refs, h - 1);
  }

  lemma WithinIsDecoded<V>(g: Graph<V>, off: nat, f: nat)
    requires Within(g, off, f).Some?
    ensures Decoded(g, off) == Within(g, off, f)
  {
    var h: nat :| Within(g, off, h).Some? && Decoded(g, off) == Within(g, off, h);
    if f <= h {
      MoreFuel(g, off, f, h);
    } else {
      MoreFuel(g, off, h, f);
    }
  }

  lemma {:induction false} CommonFuel<V>(g: Graph<V>, refs: seq<nat>) returns (f: nat)
    requires forall i | 0 <= i < |refs| :: Decoded(g, refs[i]).Some?
    ensures forall i | 0 <= i < |refs| :: Within(g, refs[i], f) == Decoded(g, refs[i])
  {
    if refs == [] {
      f := 0;
    } else {
      var n := |refs| - 1;
      var f0 := CommonFuel(g, refs[..n]);
      var f1: nat :| Within(g, refs[n], f1).Some?;
      f := f0 + f1;
      forall i | 0 <= i < |refs| ensures Within(g, refs[i], f) == Decoded(g, refs[i]) {
        if i < n {
          assert refs[..n][i] == refs[i];
          MoreFuel(g, refs[i], f0, f);
        } else {
          MoreFuel(g, refs[n], f1, f);
          WithinIsDecoded(g, refs[n], f1);
        }
      }
    }
  }

  ghost predicate AllDecoded<V>(g: Graph<V>, refs: seq<nat>) {
    forall i | 0 <= i < |refs| :: Decoded(g, refs[i]).Some?
  }

  ghost function DecodedAll<V>(g: Graph<V>, refs: seq<nat>): (vals: seq<V>)
    requires AllDecoded(g, refs)
    ensures |vals| == |refs| && forall i | 0 <= i < |refs| :: vals[i] == Decoded(g, refs[i]).value
  {
    seq(|refs|, i requires 0 <= i < |refs| => Decoded(g, refs[i]).value)
  }

  lemma StaysUndecoded<V>(g: Graph<V>, off: nat, f: nat, h: nat)
    requires g(off).Node? && Within(g, off, f + 1).None?
    requires forall i | 0 <= i < |g(off).refs| :: Within(g, g(off).refs[i], f).Some?
    ensures Within(g, off, h).None?
  {
    var refs := g(off).refs;
    if h <= f + 1 {
      if Within(g, off, h).Some? {
        MoreFuel(g, off, h, f + 1);
      }
    } else {
      forall i | 0 <= i < |refs| ensures Within(g, refs[i], h - 1) == Within(g, refs[i], f) {
        MoreFuel(g, refs[i], f, h - 1);
      }
      SameChildren(g, off, f + 1, h);
    }
  }

  lemma DecodedFromChildren<V>(g: Graph<V>, off: nat)
    requires g(off).Node? && AllDecoded(g, g(off).refs)
    ensures Decoded(g, off) == g(off).make(DecodedAll(g, g(off).refs))
  {
    var refs := g(off).refs;
    var f := CommonFuel(g, refs);
    assert Values(g, refs, f) == DecodedAll(g, refs);
    if Within(g, off, f + 1).Some? {
      WithinIsDecoded(g, off, f + 1);
    } else {
      forall h: nat ensures Within(g, off, h).None? {
        StaysUndecoded(g, off, f, h);
      }
    }
  }

  /** An object decodes exactly when it is readable, all its children decode and a container can be built of them. */
  lemma DecodedStep<V>(g: Graph<V>, off: nat)
    ensures Decoded(g, off) ==
            match g(off)
            case Bad => None
            case Done(v) => Some(v)
            case Node(refs, make) => if AllDecoded(g, refs) then make(DecodedAll(g, refs)) else None
  {
    match g(off)
    case Bad =>
    case Done(v) =>
      WithinIsDecoded(g, off, 1);
    case Node(refs, make) =>
      if AllDecoded(g, refs) {
        DecodedFromChildren(g, off);
      } else {
        var i :| 0 <= i < |refs| && Decoded(g, refs[i]).None?;
        forall h: nat ensures Within(g, off, h).None? {
          assert h > 0 ==> Within(g, refs[i], h - 1).None?;
        }
      }
  }

  // ----- Cycles -----

  /** Each offset on the path refers to the next one. */
  ghost predicate IsPath<V>(g: Graph<V>, p: seq<nat>) {
    forall i | 0 < i < |p| :: p[i] in Refs(g, p[i - 1])
  }

  ghost predicate Leads<V>(g: Graph<V>, p: seq<nat>, x: nat, y: nat) {
    |p| > 1 && p[0] == x && p[|p| - 1] == y && IsPath(g, p)
  }

  /** A path of one or more references goes from `x` to `y`. */
  ghost predicate Above<V>(g: Graph<V>, x: nat, y: nat) {
    exists p :: Leads(g, p, x, y)
  }

  lemma AboveStep<V>(g: Graph<V>, x: nat, y: nat, z: nat)
    requires (x == y || Above(g, x, y)) && z in Refs(g, y)
    ensures Above(g, x, z)
  {
    if x == y {
      assert Leads(g, [x, z], x, z);
    } else {
      var p :| Leads(g, p, x, y);
      assert Leads(g, p + [z], x, z);
    }
  }

  lemma ChildWithin<V>(g: Graph<V>, x: nat, z: nat, f: nat)
    requires z in Refs(g, x) && Within(g, x, f).Some?
    ensures f > 0 && Within(g, z, f - 1).Some?
  {
    var i :| 0 <= i < |Refs(g, x)| && Refs(g, x)[i] == z;
    assert Within(g, Refs(g, x)[i], f - 1).Some?;
  }

  lemma {:induction false} DescendPath<V>(g: Graph<V>, p: seq<nat>, k: nat, f: nat)
    requires IsPath(g, p) && k < |p| && Within(g, p[0], f).Some?
    ensures f > k && Within(g, p[k], f - k).Some?
    decreases k
  {
    if k > 0 {
      DescendPath(g, p, k - 1, f);
      ChildWithin(g, p[k - 1], p[k], f - (k - 1));
    }
  }

  lemma {:induction false} NoFuelForCycle<V>(g: Graph<V>, p: seq<nat>, x: nat, f: nat)
    requires Leads(g, p, x, x)
    ensures Within(g, x, f).None?
    decreases f
  {
    if Within(g, x, f).Some? {
      DescendPath(g, p, |p| - 1, f);
      NoFuelForCycle(g, p, x, f - (|p| - 1));
    }
  }

  /** An object from which a cycle can be reached has no value. */
  lemma CycleFails<V>(g: Graph<V>, off: nat, x: nat)
    requires (off == x || Above(g, off, x)) && Above(g, x, x)
    ensures Decoded(g, off).None?
  {
    var c :| Leads(g, c, x, x);
    var p := [x];
    if off != x {
      p :| Leads(g, p, off, x);
    }
    forall f: nat ensures Within(g, off, f).None? {
      if Within(g, off, f).Some? {
        DescendPath(g, p, |p| - 1, f);
        NoFuelForCycle(g, c, x, f - (|p| - 1));
      }
    }
  }
}
