/** Each object format read back: the reader inverts the writer on single objects. */
module PlistObjects {
  import opened Bytes
  import opened Plist
  import opened PlistReader
  import opened PlistWriter

  /** The bytes `s` lie at `off`, before the offset table. */
  ghost predicate At(doc: Doc, off: nat, s: seq<byte>)
    requires ValidDoc(doc)
  {
    off + |s| <= doc.t.tableOffset && forall i | 0 <= i < |s| :: doc.bytes[off + i] == s[i]
  }

  lemma AtSplit(doc: Doc, off: nat, a: seq<byte>, b: seq<byte>)
    requires ValidDoc(doc) && At(doc, off, a + b)
    ensures At(doc, off, a) && At(doc, off + |a|, b)
  {
    forall i | 0 <= i < |a| ensures doc.bytes[off + i] == a[i] {
      assert (a + b)[i] == a[i];
    }
    forall i | 0 <= i < |b| ensures doc.bytes[off + |a| + i] == b[i] {
      assert (a + b)[|a| + i] == b[i];
    }
  }

  lemma AtMarker(doc: Doc, off: nat, marker: byte, rest: seq<byte>)
    requires ValidDoc(doc) && At(doc, off, [marker] + rest)
    ensures doc.bytes[off] == marker && At(doc, off + 1, rest)
  {
    AtSplit(doc, off, [marker], rest);
    assert doc.bytes[off + 0] == [marker][0];
  }

  lemma AtSlice(doc: Doc, off: nat, s: seq<byte>)
    requires ValidDoc(doc) && At(doc, off, s)
    ensures doc.bytes[off..off + |s|] == s
  {
  }

  lemma IntFits(v: nat)
    requires v < TWO64
    ensures v < Pow256(Bytes2(IntWidth(v)))
    ensures Bytes2(IntWidth(v)) == Pow2(IntWidth(v))
  {
    Pow256Values();
    Pow2Values();
  }

  /** The value bytes of an int object. */
  lemma IntBytesInvert(doc: Doc, ptr: nat, v: nat)
    requires ValidDoc(doc) && v < TWO64 && At(doc, ptr, IntBytes(v))
    ensures var cnt := Pow2(IntWidth(v));
            && doc.bytes[ptr] == 0x10 + IntWidth(v) && ptr + 1 + cnt <= doc.t.tableOffset && |IntBytes(v)| == 1 + cnt
            && cnt <= 8 && SizedInt(doc.bytes[ptr + 1..ptr + 1 + cnt]) == v
  {
    var e := IntWidth(v);
    AtMarker(doc, ptr, 0x10 + e, BigEndian(v, Bytes2(e)));
    AtSlice(doc, ptr + 1, BigEndian(v, Bytes2(e)));
    IntFits(v);
    SizedRoundTrip(v, Bytes2(e));
  }

  lemma ReadIntInverts(doc: Doc, ptr: nat, v: nat)
    requires ValidDoc(doc) && v < TWO64 && At(doc, ptr, IntBytes(v))
    ensures ReadInt(doc, ptr) == Some((v, ptr + |IntBytes(v)|))
  {
    IntBytesInvert(doc, ptr, v);
  }

  lemma MarkerHalves(kind: byte, n: nat)
    requires kind % 16 == 0 && n < 16
    ensures kind + n < 256 && (kind + n) / 16 == kind / 16 && (kind + n) % 16 == n
  {
  }

  lemma HeadInverts(doc: Doc, off: nat, kind: byte, n: nat)
    requires ValidDoc(doc) && kind % 16 == 0 && n <= LONG_MAX && At(doc, off, HeadBytes(kind, n))
    ensures doc.bytes[off] / 16 == kind / 16
    ensures ReadCount(doc, off) == Some((n, off + |HeadBytes(kind, n)|))
  {
    MarkerHalves(kind, if n < 15 then n else 15);
    if n < 15 {
      AtMarker(doc, off, kind + n, []);
    } else {
      AtMarker(doc, off, kind + 15, IntBytes(n));
      ReadIntInverts(doc, off + 1, n);
    }
  }

  lemma ReadCountInverts(doc: Doc, off: nat, kind: byte, n: nat, rest: seq<byte>)
    requires ValidDoc(doc) && kind % 16 == 0 && n <= LONG_MAX && At(doc, off, HeadBytes(kind, n) + rest)
    ensures doc.bytes[off] / 16 == kind / 16
    ensures ReadCount(doc, off) == Some((n, off + |HeadBytes(kind, n)|))
    ensures At(doc, off + |HeadBytes(kind, n)|, rest)
  {
    AtSplit(doc, off, HeadBytes(kind, n), rest);
    HeadInverts(doc, off, kind, n);
  }

  lemma TakeInverts(doc: Doc, ptr: nat, s: seq<byte>)
    requires ValidDoc(doc) && At(doc, ptr, s)
    ensures Take(doc, ptr, |s|) == Some(s)
  {
    AtSlice(doc, ptr, s);
  }

  /** What becomes of a primitive: the high half of a 128-bit integer is lost. */
  function AsRead(v: Value): (r: Value)
    ensures v.Primitive() ==> r.Primitive()
  {
    match v
    case WideInt(_, low) => WideInt(0, low)
    case _ => v
  }

  lemma IntInverts(doc: Doc, off: nat, n: int)
    requires ValidDoc(doc) && 8 <= off && LeafOk(Int(n)) && At(doc, off, LeafBytes(Int(n)))
    ensures ShapeAt(doc, off) == Some(Primitive(Int(n)))
  {
    IntBytesInvert(doc, off, Bits64(n));
  }

  lemma ToNatConcat8(a: seq<byte>, b: seq<byte>)
    requires |b| == 8
    ensures ToNat(a + b) == ToNat(b) + ToNat(a) * TWO64
  {
    ToNatConcat(a, b);
    Pow256Values();
  }

  lemma LowHalf(h: nat, l: nat)
    requires l < TWO64
    ensures SizedInt(BigEndian(h, 8) + BigEndian(l, 8)) == l
  {
    var hi, lo := BigEndian(h, 8), BigEndian(l, 8);
    ToNatConcat8(hi, lo);
    ModShift(ToNat(lo), ToNat(hi));
    assert ToNat(lo) == l by {
      Pow256Values();
      BigEndianRoundTrip(l, 8);
    }
  }

  lemma WideIntInverts(doc: Doc, off: nat, h: int, l: nat)
    requires ValidDoc(doc) && 8 <= off && LeafOk(WideInt(h, l)) && At(doc, off, LeafBytes(WideInt(h, l)))
    ensures ShapeAt(doc, off) == Some(Primitive(WideInt(0, l)))
  {
    var s := BigEndian(Bits64(h), 8) + BigEndian(l, 8);
    AtMarker(doc, off, 0x14, s);
    TakeInverts(doc, off + 1, s);
    Pow2Values();
    LowHalf(Bits64(h), l);
  }

  lemma RawInverts(doc: Doc, off: nat, v: Value)
    requires ValidDoc(doc) && 8 <= off && LeafOk(v) && (v.Real? || v.Date? || v.Bool?) && At(doc, off, LeafBytes(v))
    ensures ShapeAt(doc, off) == Some(Primitive(v))
  {
    match v
    case Bool(b) => AtMarker(doc, off, if b then 0x09 else 0x08, []);
    case Real(raw) =>
      AtMarker(doc, off, if |raw| == 4 then 0x22 else 0x23, raw);
      TakeInverts(doc, off + 1, raw);
    case Date(raw) =>
      AtMarker(doc, off, 0x33, raw);
      TakeInverts(doc, off + 1, raw);
  }

  lemma UidBytesInvert(u: nat)
    requires u < TWO64
    ensures SizedInt(BigEndian(u, Bytes2(IntWidth(u)))) == u
  {
    IntFits(u);
    SizedRoundTrip(u, Bytes2(IntWidth(u)));
  }

  lemma UidFrom(doc: Doc, off: nat, n: nat, s: seq<byte>)
    requires ValidDoc(doc) && 8 <= off < doc.t.tableOffset && 1 <= n == |s| <= 8 && SizedInt(s) < 0x1_0000_0000
    requires doc.bytes[off] == 0x80 + (n - 1) && At(doc, off + 1, s)
    ensures ShapeAt(doc, off) == Some(Primitive(Uid(SizedInt(s), Object(off))))
  {
    TakeInverts(doc, off + 1, s);
  }

  lemma UidInverts(doc: Doc, off: nat, u: nat)
    requires ValidDoc(doc) && 8 <= off && u < 0x1_0000_0000 && At(doc, off, UidBytes(u))
    ensures ShapeAt(doc, off) == Some(Primitive(Uid(u, Object(off))))
  {
    var n := Bytes2(IntWidth(u));
    AtMarker(doc, off, 0x80 + (n - 1), BigEndian(u, n));
    UidBytesInvert(u);
    UidFrom(doc, off, n, BigEndian(u, n));
  }

  lemma CountedInverts(doc: Doc, off: nat, kind: byte, n: nat, s: seq<byte>)
    requires ValidDoc(doc) && 8 <= off && kind in {0x40, 0x50, 0x60} && n <= LONG_MAX
    requires |s| == if kind == 0x60 then 2 * n else n
    requires At(doc, off, HeadBytes(kind, n) + s)
    ensures ShapeAt(doc, off) == Leafy(Counted(kind / 16, s))
  {
    ReadCountInverts(doc, off, kind, n, s);
    TakeInverts(doc, off + |HeadBytes(kind, n)|, s);
  }

  lemma {:induction false} Utf16At(chars: seq<unichar>, i: nat)
    requires i < |chars|
    ensures Utf16Bytes(chars)[2 * i] == chars[i] / 256 && Utf16Bytes(chars)[2 * i + 1] == chars[i] % 256
  {
    var n := |chars| - 1;
    if i < n {
      Utf16At(chars[..n], i);
    }
  }

  lemma Utf16Inverts(chars: seq<unichar>)
    ensures Utf16(Utf16Bytes(chars)) == chars
  {
    forall i | 0 <= i < |chars| ensures Utf16(Utf16Bytes(chars))[i] == chars[i] {
      Utf16At(chars, i);
    }
  }

  lemma StrInverts(doc: Doc, off: nat, chars: seq<unichar>)
    requires ValidDoc(doc) && 8 <= off && LeafOk(Str(chars)) && At(doc, off, LeafBytes(Str(chars)))
    ensures ShapeAt(doc, off) == Some(Primitive(Str(chars)))
  {
    if Ascii(chars) {
      var s := AsciiBytes(chars);
      CountedInverts(doc, off, 0x50, |chars|, s);
      assert Chars(s) == chars;
    } else {
      CountedInverts(doc, off, 0x60, |chars|, Utf16Bytes(chars));
      Utf16Inverts(chars);
    }
  }

  /**
   A primitive read at the place where it was written is the primitive that was written; a UID lies
   at that place now.
   */
  lemma LeafInverts(doc: Doc, off: nat, v: Value)
    requires ValidDoc(doc) && 8 <= off && LeafOk(v) && !v.Null? && At(doc, off, LeafBytes(v))
    ensures ShapeAt(doc, off) == Some(Primitive(if v.Uid? then Uid(v.uid, Object(off)) else AsRead(v)))
  {
    match v
    case Int(n) => IntInverts(doc, off, n);
    case WideInt(h, l) => WideIntInverts(doc, off, h, l);
    case Data(raw) => CountedInverts(doc, off, 0x40, |raw|, raw);
    case Str(chars) => StrInverts(doc, off, chars);
    case Uid(u, _) => UidInverts(doc, off, u);
    case _ => RawInverts(doc, off, v);
  }
}
