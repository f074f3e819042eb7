/** The bytes of a binary property list, and the writer that produces them. */
module PlistWriter {
  import opened Bytes
  import opened Plist
  import opened PlistFormat
  import opened PlistFlatten
  import opened PlistBuffer
  import opened PlistReader
  import opened PlistFile

  // ----- Object formats -----

  function IntWidth(v: nat): (e: nat)
    requires v < TWO64
    ensures e <= 3
  {
    if v <= 0xFF then 0 else if v <= 0xFFFF then 1 else if v <= 0xFFFF_FFFF then 2 else 3
  }

  function Bytes2(e: nat): (n: nat)
    requires e <= 3
    ensures 1 <= n <= 8
  {
    if e == 0 then 1 else if e == 1 then 2 else if e == 2 then 4 else 8
  }

  function IntBytes(v: nat): seq<byte>
    requires v < TWO64
  {
    [0x10 + IntWidth(v)] + BigEndian(v, Bytes2(IntWidth(v)))
  }

  /** The two's complement bits of a 64-bit integer. */
  function Bits64(v: int): (b: nat)
    requires -0x8000_0000_0000_0000 <= v < 0x8000_0000_0000_0000
    ensures b < TWO64
  {
    if v < 0 then v + TWO64 else v
  }

  /** A marker with its count: inline below 15, as an int object after it otherwise. */
  function HeadBytes(kind: byte, n: nat): seq<byte>
    requires kind <= 0xF0 && n < TWO64
  {
    if n < 15 then [kind + n] else [kind + 15] + IntBytes(n)
  }

  predicate Ascii(chars: seq<unichar>) {
    forall i | 0 <= i < |chars| :: chars[i] < 0x80
  }

  function AsciiBytes(chars: seq<unichar>): (s: seq<byte>)
    requires Ascii(chars)
    ensures |s| == |chars|
  {
    seq(|chars|, i requires 0 <= i < |chars| => chars[i])
  }

  function Utf16Bytes(chars: seq<unichar>): (s: seq<byte>)
    ensures |s| == 2 * |chars|
  {
    if chars == [] then []
    else Utf16Bytes(chars[..|chars| - 1]) + [chars[|chars| - 1] / 256, chars[|chars| - 1] % 256]
  }

  function StrBytes(chars: seq<unichar>): seq<byte>
    requires |chars| <= LONG_MAX
  {
    if Ascii(chars) then HeadBytes(0x50, |chars|) + AsciiBytes(chars)
    else HeadBytes(0x60, |chars|) + Utf16Bytes(chars)
  }

  function UidBytes(uid: nat): seq<byte>
    requires uid < TWO64
  {
    var n := Bytes2(IntWidth(uid));
    [0x80 + (n - 1)] + BigEndian(uid, n)
  }

  /** The writer has no format for nulls. */
  function LeafBytes(v: Value): seq<byte>
    requires LeafOk(v) && !v.Null?
  {
    match v
    case Bool(b) => [if b then 0x09 else 0x08]
    case Int(n) => IntBytes(Bits64(n))
    case WideInt(h, l) => [0x14] + (BigEndian(Bits64(h), 8) + BigEndian(l, 8))
    case Real(raw) => [if |raw| == 4 then 0x22 else 0x23] + raw
    case Date(raw) => [0x33] + raw
    case Data(raw) => HeadBytes(0x40, |raw|) + raw
    case Str(chars) => StrBytes(chars)
    case Uid(u, _) => UidBytes(u)
  }

  function RefBytes(ids: seq<Id>, table: map<Id, nat>, w: nat): (s: seq<byte>)
    requires forall c | c in ids :: c in table
  {
    if ids == [] then [] else BigEndian(table[ids[0]], w) + RefBytes(ids[1..], table, w)
  }

  predicate Writable(n: Node) {
    NodeOk(n) && !(n.Leaf? && n.value.Null?)
  }

  function ObjectBytes(n: Node, table: map<Id, nat>, w: nat): seq<byte>
    requires Writable(n) && forall c | c in n.Children() :: c in table
  {
    match n
    case Leaf(v) => LeafBytes(v)
    case ArrayNode(es) => HeadBytes(0xA0, |es|) + RefBytes(es, table, w)
    case DictNode(ks, vs) => HeadBytes(0xD0, |ks|) + RefBytes(ks + vs, table, w)
  }

  // ----- The whole file -----

  ghost predicate AllWritable(st: Store, f: Flat)
    requires Consistent(st, f)
  {
    forall i | 0 <= i < |f.list| :: Writable(st[f.list[i]])
  }

  /** What flattening hands to the writer. */
  ghost predicate Listed(st: Store, f: Flat) {
    && Consistent(st, f) && ClosedFrom(st, f, 0) && 0 < |f.list| < 0x1_0000_0000
    && forall i | 0 <= i < |f.list| :: NodeOk(st[f.list[i]])
  }

  /** Objects that can be written one after the other. */
  ghost predicate Ready(st: Store, f: Flat) {
    Listed(st, f) && AllWritable(st, f)
  }

  ghost function Encoding(st: Store, f: Flat, i: nat): seq<byte>
    requires Ready(st, f) && i < |f.list|
  {
    assert ChildrenListed(st, f, f.list[i]);
    ObjectBytes(st[f.list[i]], f.table, ByteCount(|f.list|))
  }

  /** The listed objects, each in its format. */
  ghost function Encodings(st: Store, f: Flat): (parts: seq<seq<byte>>)
    requires Ready(st, f)
    ensures |parts| == |f.list|
  {
    seq(|f.list|, i requires 0 <= i < |f.list| => Encoding(st, f, i))
  }

  lemma EncodingNonEmpty(st: Store, f: Flat, i: nat)
    requires Ready(st, f) && i < |f.list|
    ensures |Encoding(st, f, i)| > 0
  {
  }

  /** The file stays below 2^63 bytes. */
  ghost predicate Short(st: Store, f: Flat) {
    Ready(st, f) && End(Encodings(st, f)) + 8 * |f.list| + 32 <= LONG_MAX
  }

  lemma ShortFits(st: Store, f: Flat)
    requires Short(st, f)
    ensures Fits(Encodings(st, f))
  {
    var parts := Encodings(st, f);
    forall i | 0 <= i < |parts| ensures parts[i] != [] {
      EncodingNonEmpty(st, f, i);
      assert parts[i] == Encoding(st, f, i);
    }
  }

  // ----- The writer -----

  // ----- The formats are those of the property list format -----

  lemma LeastOfWidths(e: nat, v: nat)
    requires v < TWO64 && e == IntWidth(v)
    ensures LeastWidth(Bytes2(e), v) && Bytes2(e) == Pow2(e)
  {
    Pow256Values();
    Pow2Values();
  }

  lemma IntFormat(v: nat)
    requires v < TWO64
    ensures IsLeastInt(IntBytes(v), v)
  {
    var n := Bytes2(IntWidth(v));
    LeastOfWidths(IntWidth(v), v);
    BigEndianRoundTrip(v, n);
    assert IntBytes(v)[1..] == BigEndian(v, n);
  }

  lemma UidFormat(u: nat)
    requires u < TWO64
    ensures IsUid(UidBytes(u), u) && LeastWidth(|UidBytes(u)| - 1, u)
  {
    var n := Bytes2(IntWidth(u));
    LeastOfWidths(IntWidth(u), u);
    BigEndianRoundTrip(u, n);
    assert UidBytes(u)[1..] == BigEndian(u, n);
  }

  /** A head, whatever follows it. */
  lemma HeadFormat(kind: byte, n: nat, rest: seq<byte>)
    requires kind <= 0xF0 && kind % 16 == 0 && n < TWO64
    ensures var b := HeadBytes(kind, n) + rest;
            HasLeastHead(b, kind / 16, n) && HeadLength(b) == |HeadBytes(kind, n)| && b[HeadLength(b)..] == rest
  {
    var b := HeadBytes(kind, n) + rest;
    if 15 <= n {
      IntFormat(n);
      assert b[1] == IntBytes(n)[0];
      assert b[1..1 + |IntBytes(n)|] == IntBytes(n);
    }
  }

  lemma HeadAlone(kind: byte, n: nat, was: seq<byte>)
    requires kind <= 0xF0 && kind % 16 == 0 && n < TWO64
    ensures HasLeastHead(Since(was + HeadBytes(kind, n), was), kind / 16, n)
  {
    HeadFormat(kind, n, []);
    assert HeadBytes(kind, n) + [] == HeadBytes(kind, n);
    SinceIs(was, HeadBytes(kind, n));
  }

  lemma {:induction false} Utf16Format(chars: seq<unichar>)
    ensures IsUtf16(Utf16Bytes(chars), chars)
  {
    if chars != [] {
      Utf16Format(chars[..|chars| - 1]);
    }
  }

  lemma StrFormat(chars: seq<unichar>)
    requires |chars| <= LONG_MAX
    ensures Encodes(StrBytes(chars), Str(chars)) && Concise(StrBytes(chars), Str(chars))
  {
    if Ascii(chars) {
      HeadFormat(0x50, |chars|, AsciiBytes(chars));
    } else {
      Utf16Format(chars);
      HeadFormat(0x60, |chars|, Utf16Bytes(chars));
    }
  }

  lemma WideFormat(h: int, l: nat)
    requires LeafOk(WideInt(h, l))
    ensures Encodes(LeafBytes(WideInt(h, l)), WideInt(h, l))
  {
    var b := LeafBytes(WideInt(h, l));
    Pow256Values();
    BigEndianRoundTrip(Bits64(h), 8);
    BigEndianRoundTrip(l, 8);
    assert b[1..9] == BigEndian(Bits64(h), 8) && b[9..17] == BigEndian(l, 8);
  }

  /** Every primitive that can be written is written in the format, with least widths. */
  lemma LeafFormat(v: Value)
    requires LeafOk(v) && !v.Null?
    ensures Encodes(LeafBytes(v), v) && Concise(LeafBytes(v), v)
  {
    match v
    case Int(n) => IntFormat(Bits64(n));
    case WideInt(h, l) => WideFormat(h, l);
    case Data(raw) => HeadFormat(0x40, |raw|, raw);
    case Str(chars) => StrFormat(chars);
    case Uid(u, _) => UidFormat(u);
    case _ =>
  }

  /** What was sent since. */
  ghost function Since(sent: seq<byte>, was: seq<byte>): seq<byte>
    requires |was| <= |sent|
  {
    sent[|was|..]
  }

  lemma Rejoin(was: seq<byte>, a: seq<byte>, b: seq<byte>)
    ensures was + a + b == was + (a + b)
  {
  }

  lemma SinceIs(was: seq<byte>, b: seq<byte>)
    ensures Since(was + b, was) == b
  {
  }

  /** Counts bytes by masking off ever more low bytes, then rounds up to a power of two. */
  method CountBytes(count: nat) returns (size: nat)
    requires count < TWO64
    ensures size == ByteCount(count)
  {
    size := 0;
    var limit := 1; // the mask keeps the bits that weigh `limit` or more
    Pow256Values();
    while count / limit != 0
      invariant 0 <= size <= 8 && limit == Pow256(size)
      invariant size > 0 ==> Pow256(size - 1) <= count
      decreases 8 - size
    {
      assert size < 8;
      size := size + 1;
      limit := limit * 256;
    }
    if size > 0 {
      Pow256Monotone(size - 1, 8);
    }
    ghost var exact := size;
    while size != 1 && size != 2 && size != 4 && size != 8 && size <= 8
      invariant exact <= size <= 8
      invariant size > exact ==> exact == 0 || exact == 3 || 5 <= exact
      invariant exact == 0 ==> size <= 1
      invariant exact == 3 ==> size <= 4
      decreases 8 - size
    {
      size := size + 1;
    }
    Pow256Monotone(exact, size);
    assert exact > 1 ==> Pow256(1) <= Pow256(exact - 1) by { if exact > 1 { Pow256Monotone(1, exact - 1); } }
    assert exact > 2 ==> Pow256(2) <= Pow256(exact - 1) by { if exact > 2 { Pow256Monotone(2, exact - 1); } }
    assert exact > 4 ==> Pow256(4) <= Pow256(exact - 1) by { if exact > 4 { Pow256Monotone(4, exact - 1); } }
  }

  /** A marker byte and the bytes that follow it. */
  method AppendMarked(buf: WriteBuffer, marker: byte, payload: seq<byte>)
    requires buf.Valid()
    modifies buf, buf.buffer
    ensures buf.Valid() && buf.sent == old(buf.sent) + ([marker] + payload)
    ensures old(buf.error) ==> buf.error
    ensures old(buf.Reliable()) ==> buf.Reliable() && buf.error == old(buf.error)
  {
    ghost var was := buf.sent;
    buf.BufferWrite([marker]);
    buf.BufferWrite(payload);
    assert was + [marker] + payload == was + ([marker] + payload);
  }

  method WriteInt(buf: WriteBuffer, bigint: nat)
    requires buf.Valid() && bigint < TWO64
    modifies buf, buf.buffer
    ensures buf.Valid() && buf.sent == old(buf.sent) + IntBytes(bigint)
    ensures old(buf.error) ==> buf.error
    ensures old(buf.Reliable()) ==> buf.Reliable() && buf.error == old(buf.error)
  {
    var nbytes, marker := 8, 0x13;
    if bigint <= 0xFF {
      nbytes, marker := 1, 0x10;
    } else if bigint <= 0xFFFF {
      nbytes, marker := 2, 0x11;
    } else if bigint <= 0xFFFF_FFFF {
      nbytes, marker := 4, 0x12;
    }
    AppendMarked(buf, marker, BigEndian(bigint, nbytes));
  }

  method AppendInt(buf: WriteBuffer, bigint: nat)
    requires buf.Valid() && bigint < TWO64
    modifies buf, buf.buffer
    ensures buf.Valid() && buf.sent == old(buf.sent) + IntBytes(bigint)
    ensures IsLeastInt(Since(buf.sent, old(buf.sent)), bigint)
    ensures old(buf.error) ==> buf.error
    ensures old(buf.Reliable()) ==> buf.Reliable() && buf.error == old(buf.error)
  {
    IntFormat(bigint);
    SinceIs(buf.sent, IntBytes(bigint));
    WriteInt(buf, bigint);
  }

  method WriteHead(buf: WriteBuffer, kind: byte, count: nat)
    requires buf.Valid() && kind <= 0xF0 && kind % 16 == 0 && count < TWO64
    modifies buf, buf.buffer
    ensures buf.Valid() && buf.sent == old(buf.sent) + HeadBytes(kind, count)
    ensures old(buf.error) ==> buf.error
    ensures old(buf.Reliable()) ==> buf.Reliable() && buf.error == old(buf.error)
  {
    ghost var was := buf.sent;
    var marker: byte := kind + (if count < 15 then count else 15);
    buf.BufferWrite([marker]);
    if 15 <= count {
      WriteInt(buf, count);
      Rejoin(was, [marker], IntBytes(count));
    }
  }

  method AppendHead(buf: WriteBuffer, kind: byte, count: nat)
    requires buf.Valid() && kind <= 0xF0 && kind % 16 == 0 && count < TWO64
    modifies buf, buf.buffer
    ensures buf.Valid() && buf.sent == old(buf.sent) + HeadBytes(kind, count)
    ensures HasLeastHead(Since(buf.sent, old(buf.sent)), kind / 16, count)
    ensures old(buf.error) ==> buf.error
    ensures old(buf.Reliable()) ==> buf.Reliable() && buf.error == old(buf.error)
  {
    HeadAlone(kind, count, buf.sent);
    WriteHead(buf, kind, count);
  }

  /** A marker with its count, then the bytes it counts. */
  method AppendCounted(buf: WriteBuffer, kind: byte, count: nat, payload: seq<byte>)
    requires buf.Valid() && kind <= 0xF0 && kind % 16 == 0 && count < TWO64
    modifies buf, buf.buffer
    ensures buf.Valid() && buf.sent == old(buf.sent) + (HeadBytes(kind, count) + payload)
    ensures old(buf.error) ==> buf.error
    ensures old(buf.Reliable()) ==> buf.Reliable() && buf.error == old(buf.error)
  {
    ghost var was, head := buf.sent, HeadBytes(kind, count);
    AppendHead(buf, kind, count);
    buf.BufferWrite(payload);
    assert was + head + payload == was + (head + payload);
  }

  method AppendString(buf: WriteBuffer, chars: seq<unichar>)
    requires buf.Valid() && |chars| <= LONG_MAX
    modifies buf, buf.buffer
    ensures buf.Valid() && buf.sent == old(buf.sent) + StrBytes(chars)
    ensures var b := Since(buf.sent, old(buf.sent)); Encodes(b, Str(chars)) && Concise(b, Str(chars))
    ensures old(buf.error) ==> buf.error
    ensures old(buf.Reliable()) ==> buf.Reliable() && buf.error == old(buf.error)
  {
    StrFormat(chars);
    if Ascii(chars) {
      AppendCounted(buf, 0x50, |chars|, AsciiBytes(chars));
    } else {
      AppendCounted(buf, 0x60, |chars|, Utf16Bytes(chars));
    }
  }

  method AppendLeaf(buf: WriteBuffer, v: Value) returns (ok: bool)
    requires buf.Valid() && LeafOk(v)
    modifies buf, buf.buffer
    ensures buf.Valid() && ok == !v.Null?
    ensures ok ==> buf.sent == old(buf.sent) + LeafBytes(v)
    ensures ok ==> var b := Since(buf.sent, old(buf.sent)); Encodes(b, v) && Concise(b, v)
    ensures old(buf.error) ==> buf.error
    ensures old(buf.Reliable()) ==> buf.Reliable() && buf.error == old(buf.error)
  {
    if !v.Null? {
      LeafFormat(v);
      SinceIs(buf.sent, LeafBytes(v));
    }
    ok := WriteLeaf(buf, v);
  }

  method WriteLeaf(buf: WriteBuffer, v: Value) returns (ok: bool)
    requires buf.Valid() && LeafOk(v)
    modifies buf, buf.buffer
    ensures buf.Valid() && ok == !v.Null?
    ensures ok ==> buf.sent == old(buf.sent) + LeafBytes(v)
    ensures old(buf.error) ==> buf.error
    ensures old(buf.Reliable()) ==> buf.Reliable() && buf.error == old(buf.error)
  {
    ok := true;
    match v
    case Str(chars) => AppendString(buf, chars);
    case Real(raw) => AppendMarked(buf, if |raw| == 4 then 0x22 else 0x23, raw);
    case WideInt(h, l) =>
      AppendMarked(buf, 0x14, BigEndian(Bits64(h), 8) + BigEndian(l, 8));
    case Int(n) => AppendInt(buf, Bits64(n));
    case Bool(b) => buf.BufferWrite([if b then 0x09 else 0x08]);
    case Data(raw) => AppendCounted(buf, 0x40, |raw|, raw);
    case Date(raw) => AppendMarked(buf, 0x33, raw);
    case Uid(u, _) =>
      var nbytes := Bytes2(IntWidth(u));
      AppendMarked(buf, 0x80 + (nbytes - 1), BigEndian(u, nbytes));
    case Null => ok := false;
  }

  method AppendRefs(buf: WriteBuffer, list: seq<Id>, table: map<Id, nat>, objRefSize: nat)
    requires buf.Valid() && forall c | c in list :: c in table
    modifies buf, buf.buffer
    ensures buf.Valid() && buf.sent == old(buf.sent) + RefBytes(list, table, objRefSize)
    ensures old(buf.error) ==> buf.error
    ensures old(buf.Reliable()) ==> buf.Reliable() && buf.error == old(buf.error)
  {
    var idx := 0;
    assert list[0..] == list;
    while idx < |list|
      invariant 0 <= idx <= |list|
      invariant buf.Valid()
      invariant old(buf.error) ==> buf.error
      invariant old(buf.Reliable()) ==> buf.Reliable() && buf.error == old(buf.error)
      invariant buf.sent + RefBytes(list[idx..], table, objRefSize) == old(buf.sent) + RefBytes(list, table, objRefSize)
    {
      var ref := BigEndian(table[list[idx]], objRefSize);
      ghost var was := buf.sent;
      buf.BufferWrite(ref);
      assert list[idx..][0] == list[idx] && list[idx..][1..] == list[idx + 1..];
      assert was + RefBytes(list[idx..], table, objRefSize) == was + ref + RefBytes(list[idx + 1..], table, objRefSize);
      idx := idx + 1;
    }
  }

  method AppendObject(buf: WriteBuffer, obj: Node, table: map<Id, nat>, objRefSize: nat) returns (ok: bool)
    requires buf.Valid() && NodeOk(obj) && forall c | c in obj.Children() :: c in table
    modifies buf, buf.buffer
    ensures buf.Valid() && ok == Writable(obj)
    ensures ok ==> buf.sent == old(buf.sent) + ObjectBytes(obj, table, objRefSize)
    ensures old(buf.error) ==> buf.error
    ensures old(buf.Reliable()) ==> buf.Reliable() && buf.error == old(buf.error)
  {
    ok := true;
    match obj
    case Leaf(v) =>
      ok := AppendLeaf(buf, v);
    case ArrayNode(es) =>
      AppendContainer(buf, 0xA0, |es|, es, table, objRefSize);
    case DictNode(ks, vs) =>
      AppendContainer(buf, 0xD0, |ks|, ks + vs, table, objRefSize);
  }

  method AppendContainer(buf: WriteBuffer, kind: byte, count: nat, list: seq<Id>, table: map<Id, nat>, objRefSize: nat)
    requires buf.Valid() && kind <= 0xF0 && kind % 16 == 0 && count < TWO64
    requires forall c | c in list :: c in table
    modifies buf, buf.buffer
    ensures buf.Valid() && buf.sent == old(buf.sent) + (HeadBytes(kind, count) + RefBytes(list, table, objRefSize))
    ensures old(buf.error) ==> buf.error
    ensures old(buf.Reliable()) ==> buf.Reliable() && buf.error == old(buf.error)
  {
    ghost var was, head, refs := buf.sent, HeadBytes(kind, count), RefBytes(list, table, objRefSize);
    AppendHead(buf, kind, count);
    AppendRefs(buf, list, table, objRefSize);
    assert was + head + refs == was + (head + refs);
  }

  lemma Associative(a: seq<byte>, b: seq<byte>, c: seq<byte>)
    ensures a + b + c == a + (b + c)
  {
  }

  /** The first `n` objects went out, and `offs` says where they start. */
  ghost predicate Sent(st: Store, f: Flat, n: nat, sent: seq<byte>, offs: seq<nat>, error: bool)
    requires Listed(st, f) && n <= |f.list| == |offs|
  {
    && (forall k | 0 <= k < n :: Writable(st[f.list[k]]))
    && (AllWritable(st, f) ==> sent == HEADER + Concat(Encodings(st, f)[..n]))
    && (AllWritable(st, f) && !error ==> forall k | 0 <= k < n :: offs[k] == Start(Encodings(st, f), k))
  }

  /** Going from `n` objects to one more. */
  lemma SentNext(st: Store, f: Flat, n: nat, sent: seq<byte>, offs: seq<nat>, error: bool, sent': seq<byte>,
                 offs': seq<nat>, error': bool)
    requires Listed(st, f) && n < |f.list| == |offs| == |offs'| && Sent(st, f, n, sent, offs, error)
    requires Writable(st[f.list[n]]) && (error ==> error')
    requires Ready(st, f) ==> sent' == sent + Encodings(st, f)[n]
    requires offs' == offs[n := offs'[n]] && (!error ==> offs'[n] == |sent|)
    ensures Sent(st, f, n + 1, sent', offs', error')
  {
    if AllWritable(st, f) {
      var parts := Encodings(st, f);
      ConcatNext(parts, n);
      Associative(HEADER, Concat(parts[..n]), parts[n]);
    }
  }

  method AppendNth(buf: WriteBuffer, st: Store, ghost f: Flat, idx: nat, obj: Id, objtable: map<Id, nat>, refSize: nat)
    returns (ok: bool)
    requires buf.Valid() && Listed(st, f) && idx < |f.list|
    requires obj == f.list[idx] && objtable == f.table && refSize == ByteCount(|f.list|)
    modifies buf, buf.buffer
    ensures buf.Valid() && ok == Writable(st[f.list[idx]])
    ensures Ready(st, f) ==> buf.sent == old(buf.sent) + Encodings(st, f)[idx]
    ensures old(buf.error) ==> buf.error
    ensures old(buf.Reliable()) ==> buf.Reliable() && buf.error == old(buf.error)
  {
    assert ChildrenListed(st, f, f.list[idx]);
    ok := AppendObject(buf, st[obj], objtable, refSize);
  }

  /** The objects in list order, noting where each one starts. Fails at the first one that has no format. */
  method AppendObjects(buf: WriteBuffer, st: Store, ghost f: Flat, objlist: seq<Id>, objtable: map<Id, nat>,
                       refSize: nat)
    returns (ok: bool, offsets: seq<nat>)
    requires buf.Valid() && buf.sent == HEADER && Listed(st, f)
    requires objlist == f.list && objtable == f.table && refSize == ByteCount(|f.list|)
    modifies buf, buf.buffer
    ensures buf.Valid() && ok == AllWritable(st, f) && |offsets| == |f.list|
    ensures ok ==> Sent(st, f, |f.list|, buf.sent, offsets, buf.error)
    ensures old(buf.Reliable()) ==> buf.Reliable() && buf.error == old(buf.error)
  {
    offsets := seq(|objlist|, _ => 0);
    var idx := 0;
    while idx < |objlist|
      invariant 0 <= idx <= |objlist| == |offsets|
      invariant buf.Valid() && Sent(st, f, idx, buf.sent, offsets, buf.error)
      invariant old(buf.Reliable()) ==> buf.Reliable() && buf.error == old(buf.error)
    {
      ghost var sent, offs, error := buf.sent, offsets, buf.error;
      offsets := offsets[idx := buf.written + buf.used];
      ok := AppendNth(buf, st, f, idx, objlist[idx], objtable, refSize);
      if !ok {
        return;
      }
      SentNext(st, f, idx, sent, offs, error, buf.sent, offsets, buf.error);
      idx := idx + 1;
    }
    ok := true;
  }

  method AppendOffsets(buf: WriteBuffer, ghost parts: seq<seq<byte>>, offsets: seq<nat>, offsetIntSize: nat)
    requires buf.Valid() && |offsets| == |parts|
    requires !buf.error ==> forall k | 0 <= k < |parts| :: offsets[k] == Start(parts, k)
    modifies buf, buf.buffer
    ensures buf.Valid()
    ensures !buf.error ==> buf.sent == old(buf.sent) + OffsetTable(parts, |parts|, offsetIntSize)
    ensures old(buf.error) ==> buf.error
    ensures old(buf.Reliable()) ==> buf.Reliable() && buf.error == old(buf.error)
  {
    var idx := 0;
    while idx < |offsets|
      invariant 0 <= idx <= |offsets|
      invariant buf.Valid()
      invariant !buf.error ==> buf.sent == old(buf.sent) + OffsetTable(parts, idx, offsetIntSize)
      invariant old(buf.error) ==> buf.error
      invariant old(buf.Reliable()) ==> buf.Reliable() && buf.error == old(buf.error)
    {
      var entry := BigEndian(offsets[idx], offsetIntSize);
      buf.BufferWrite(entry);
      Associative(old(buf.sent), OffsetTable(parts, idx, offsetIntSize), entry);
      idx := idx + 1;
    }
  }

  /** The part of the writer after flattening. */
  method WriteListed(st: Store, ghost f: Flat, objlist: seq<Id>, objtable: map<Id, nat>, isData: bool, takes: seq<int>)
    returns (length: nat, out: seq<byte>)
    requires Listed(st, f) && objlist == f.list && objtable == f.table
    requires Ready(st, f) ==> Fits(Encodings(st, f))
    ensures length > 0 ==> Ready(st, f) && out == FileOf(Encodings(st, f)) && length == |out|
    ensures !AllWritable(st, f) ==> length == 0
    ensures (isData || forall r | r in takes :: r > 0) && AllWritable(st, f) ==> length > 0
  {
    var cnt := |objlist|;
    var buf := new WriteBuffer(isData, takes);
    buf.BufferWrite(HEADER);
    assert [] + HEADER == HEADER;
    var objectRefSize := CountBytes(cnt);
    var success, offsets := AppendObjects(buf, st, f, objlist, objtable, objectRefSize);
    if !success {
      return 0, buf.stream;
    }
    ghost var parts := Encodings(st, f);
    assert parts[..cnt] == parts;
    var tableOffset := buf.written + buf.used;
    assert !buf.error ==> tableOffset == End(parts);
    var offsetIntSize := CountBytes(tableOffset);
    AppendOffsets(buf, parts, offsets, offsetIntSize);
    buf.BufferWrite(TrailerBytes(Trailer(offsetIntSize, objectRefSize, cnt, 0, tableOffset)));
    buf.BufferFlush();
    if buf.error {
      return 0, buf.stream;
    }
    RowsIsProduct(cnt, offsetIntSize);
    length := tableOffset + cnt * offsetIntSize + 32;
    out := buf.stream;
  }

  /**
   Writes `plist` to a stream. The result is the length of the file, or 0 if an object
   has no format or the stream failed, which it does only by taking nothing.
   */
  method Write(st: Store, ghost rank: map<Id, nat>, plist: Id, isData: bool, takes: seq<int>)
    returns (length: nat, out: seq<byte>)
    requires Acyclic(st, rank) && plist in st
    requires |Flatten(st, rank, plist).list| < 0x1_0000_0000
    requires Ready(st, Flatten(st, rank, plist)) ==> Short(st, Flatten(st, rank, plist))
    ensures Listed(st, Flatten(st, rank, plist))
    ensures var f := Flatten(st, rank, plist);
            length > 0 ==> Ready(st, f) && Fits(Encodings(st, f)) && out == FileOf(Encodings(st, f)) && length == |out|
    ensures !AllWritable(st, Flatten(st, rank, plist)) ==> length == 0
    ensures (isData || forall r | r in takes :: r > 0) && AllWritable(st, Flatten(st, rank, plist)) ==> length > 0
  {
    FlattenCorrect(st, rank, plist);
    if Ready(st, Flatten(st, rank, plist)) {
      ShortFits(st, Flatten(st, rank, plist));
    }
    var flat := new Flattener();
    flat.FlattenPlist(st, rank, plist);
    length, out := WriteListed(st, Flatten(st, rank, plist), flat.objlist, flat.objtable, isData, takes);
  }
}
