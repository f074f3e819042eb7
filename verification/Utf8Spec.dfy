/** What the converters compute on any input: where they stop and what they have written by then. */
module Utf8Spec {
  import opened Bytes
  import opened Utf8

  const REPLACEMENT: unichar := 0xFFFD

  /** How much of the input was taken, and what came out. */
  datatype Coded<T> = Coded(consumed: nat, out: seq<T>)

  /** Room that is left; negative is no limit. */
  function Less(room: int, n: nat): int {
    if room < 0 then room else room - n
  }

  predicate Fits(room: int, n: nat) {
    room < 0 || n <= room
  }

  const TWO32: nat := 0x1_0000_0000

  /** What the encoder takes for fitting: for all but a single byte the room is cut to 32 bits. */
  predicate Admits(room: int, n: nat) {
    room < 0 || (if n <= 1 then n <= room else n <= room % TWO32)
  }

  lemma DropTwice<T>(s: seq<T>, i: nat, j: nat)
    requires i + j <= |s|
    ensures s[i..][j..] == s[i + j..]
  {
  }

  lemma TakeDrop<T>(s: seq<T>, i: nat, j: nat)
    requires i + j <= |s|
    ensures s[..i + j][i..] == s[i..][..j] && s[..i + j] == s[..i] + s[i..][..j]
  {
  }

  lemma Associate<T>(a: seq<T>, b: seq<T>, c: seq<T>)
    ensures a + (b + c) == a + b + c
  {
  }

  // ----- From UTF-16 -----

  datatype Next = Stop | Char(v: nat, units: nat)

  /** The first character. A surrogate without its partner stops a strict conversion and is a character otherwise. */
  function NextChar(strict: bool, s: seq<unichar>): (c: Next)
    requires s != []
    ensures c.Char? ==> 1 <= c.units <= 2 && c.units <= |s| && c.v <= 0x10FFFF
  {
    if IsHigh(s[0]) && |s| > 1 && IsLow(s[1]) then Char(Combine(s[0], s[1]), 2)
    else if strict && (IsHigh(s[0]) || IsLow(s[0])) then Stop
    else Char(s[0], 1)
  }

  /** What the first character is written as. */
  datatype Piece = End | Piece(bytes: seq<byte>, units: nat)

  /** Any way to write the first character. */
  type Speller = seq<unichar> -> Piece

  function Spelling(strict: bool, s: seq<unichar>): Piece
    requires s != []
  {
    match NextChar(strict, s)
    case Stop => End
    case Char(v, n) => Piece(Encode8(v), n)
  }

  function Spellings(strict: bool): Speller {
    s => if s == [] then End else Spelling(strict, s)
  }

  predicate Begins(next: Speller, s: seq<unichar>) {
    s != [] && next(s).Piece? && 1 <= next(s).units <= |s|
  }

  predicate Spells(next: Speller, s: seq<unichar>, room: int) {
    Begins(next, s) && Admits(room, |next(s).bytes|)
  }

  /** Encoding with any speller. */
  function Spell(next: Speller, s: seq<unichar>, room: int): Coded<byte>
    decreases |s|
  {
    if !Spells(next, s, room) then Coded(0, [])
    else
      var p := next(s);
      var rest := Spell(next, s[p.units..], Less(room, |p.bytes|));
      Coded(p.units + rest.consumed, p.bytes + rest.out)
  }

  /** What is encoded of `s` into `room` bytes. */
  function Encode(strict: bool, s: seq<unichar>, room: int): Coded<byte> {
    Spell(Spellings(strict), s, room)
  }

  lemma NextOfScalar(strict: bool, v: Scalar, rest: seq<unichar>)
    ensures NextChar(strict, Encode16(v) + rest) == Char(v, |Encode16(v)|)
    ensures (Encode16(v) + rest)[|Encode16(v)|..] == rest
  {
    var s := Encode16(v) + rest;
    if v >= 0x10000 {
      assert s[0] == Encode16(v)[0] && s[1] == Encode16(v)[1];
    }
  }

  /** Text is encoded as the standard says, with nothing left over. */
  lemma {:induction false} EncodeText(strict: bool, vs: seq<Scalar>)
    ensures Encode(strict, AllUtf16(vs), -1) == Coded(|AllUtf16(vs)|, AllUtf8(vs))
    decreases |vs|
  {
    if vs != [] {
      EncodeText(strict, vs[1..]);
      NextOfScalar(strict, vs[0], AllUtf16(vs[1..]));
    }
  }

  /** The next character of a part that holds all of it. */
  lemma NextOfPrefix(strict: bool, s: seq<unichar>, n: nat)
    requires s != [] && NextChar(strict, s).Char? && NextChar(strict, s).units <= n <= |s|
    ensures NextChar(strict, s[..n]) == NextChar(strict, s)
  {
  }

  /** The first character and the rest, if the first one was consumed. */
  lemma EncodeStep(strict: bool, s: seq<unichar>, room: int)
    ensures Encode(strict, s, room).consumed == 0 ==> Encode(strict, s, room) == Coded(0, [])
    ensures Encode(strict, s, room).consumed > 0 ==>
              && s != [] && NextChar(strict, s).Char? && Admits(room, Width(NextChar(strict, s).v))
              && var c := NextChar(strict, s);
                 var rest := Encode(strict, s[c.units..], Less(room, Width(c.v)));
                 Encode(strict, s, room) == Coded(c.units + rest.consumed, Encode8(c.v) + rest.out)
  {
  }

  lemma EncodeUnlimited(strict: bool, s: seq<unichar>)
    requires s != [] && NextChar(strict, s).Char?
    ensures var c := NextChar(strict, s);
            var rest := Encode(strict, s[c.units..], -1);
            Encode(strict, s, -1) == Coded(c.units + rest.consumed, Encode8(c.v) + rest.out)
  {
  }

  /** What was written is the encoding of what was consumed, and it fits. */
  lemma {:induction false} EncodeConsumed(strict: bool, s: seq<unichar>, room: int)
    ensures var e := Encode(strict, s, room);
            e.consumed <= |s| && Fits(room, |e.out|) && Encode(strict, s[..e.consumed], -1) == e
    decreases |s|
  {
    var e := Encode(strict, s, room);
    EncodeStep(strict, s, room);
    if e.consumed > 0 {
      var c := NextChar(strict, s);
      var rest := Encode(strict, s[c.units..], Less(room, Width(c.v)));
      EncodeConsumed(strict, s[c.units..], Less(room, Width(c.v)));
      NextOfPrefix(strict, s, e.consumed);
      TakeDrop(s, c.units, rest.consumed);
      EncodeUnlimited(strict, s[..e.consumed]);
    } else {
      assert s[..0] == [];
    }
  }

  /** Going on behind what was consumed gives the same as no limit. */
  lemma {:induction false} EncodeContinues(strict: bool, s: seq<unichar>, room: int)
    ensures var e := Encode(strict, s, room);
            e.consumed <= |s| &&
            var r := Encode(strict, s[e.consumed..], -1);
            Encode(strict, s, -1) == Coded(e.consumed + r.consumed, e.out + r.out)
    decreases |s|
  {
    EncodeConsumed(strict, s, room);
    var e := Encode(strict, s, room);
    if e.consumed > 0 {
      var c := NextChar(strict, s);
      var rest := Encode(strict, s[c.units..], Less(room, Width(c.v)));
      EncodeContinues(strict, s[c.units..], Less(room, Width(c.v)));
      DropTwice(s, c.units, rest.consumed);
      Associate(Encode8(c.v), rest.out, Encode(strict, s[e.consumed..], -1).out);
    } else {
      assert s[0..] == s;
      var r := Encode(strict, s, -1);
      assert r.out == [] + r.out;
    }
  }

  /** With room for any character, nothing is consumed only where nothing can be. */
  lemma EncodeProgress(strict: bool, s: seq<unichar>, room: int)
    requires room % TWO32 >= 4 && room > 0 && Encode(strict, s, room).consumed == 0
    ensures Encode(strict, s, -1) == Coded(0, [])
  {
  }

  /** Encoding chunk by chunk, each into a new buffer, until nothing more is consumed. */
  ghost function Chunked(strict: bool, s: seq<unichar>, sizes: nat -> nat, k: nat): Coded<byte>
    decreases |s|
  {
    var e := Encode(strict, s, sizes(k));
    if e.consumed == 0 || e.consumed > |s| then e
    else
      var rest := Chunked(strict, s[e.consumed..], sizes, k + 1);
      Coded(e.consumed + rest.consumed, e.out + rest.out)
  }

  /** Sizes from 4 to 2^32 - 1 are such, and all others that have room for a character in their low 32 bits. */
  lemma {:induction false} ChunkedIsOneShot(strict: bool, s: seq<unichar>, sizes: nat -> nat, k: nat)
    requires forall i :: sizes(i) % TWO32 >= 4
    ensures Chunked(strict, s, sizes, k) == Encode(strict, s, -1)
    decreases |s|
  {
    var e := Encode(strict, s, sizes(k));
    EncodeConsumed(strict, s, sizes(k));
    if e.consumed == 0 {
      EncodeProgress(strict, s, sizes(k));
      EncodeNothing(strict, s, sizes(k));
    } else {
      EncodeContinues(strict, s, sizes(k));
      ChunkedIsOneShot(strict, s[e.consumed..], sizes, k + 1);
    }
  }

  lemma EncodeNothing(strict: bool, s: seq<unichar>, room: int)
    requires Encode(strict, s, room).consumed == 0
    ensures Encode(strict, s, room) == Coded(0, [])
  {
  }

  // ----- Limits of 2^32 bytes and more -----

  /** Encoding with a limit that is one: characters as long as they fit. */
  function Within(next: Speller, s: seq<unichar>, room: nat): Coded<byte>
    decreases |s|
  {
    if !Begins(next, s) || !Fits(room, |next(s).bytes|) then Coded(0, [])
    else
      var p := next(s);
      var rest := Within(next, s[p.units..], room - |p.bytes|);
      Coded(p.units + rest.consumed, p.bytes + rest.out)
  }

  /** The first characters of `s` take `k` units and give `n` bytes. */
  ghost predicate Spans(next: Speller, s: seq<unichar>, k: nat, n: nat)
    decreases |s|
  {
    || (k == 0 && n == 0)
    || (Begins(next, s) && next(s).units <= k && |next(s).bytes| <= n
        && Spans(next, s[next(s).units..], k - next(s).units, n - |next(s).bytes|))
  }

  /** A piece of more than one byte, and room for it that does not show in the low 32 bits. */
  ghost predicate Hidden(next: Speller, s: seq<unichar>, room: int) {
    Begins(next, s) && 1 < |next(s).bytes| && TWO32 <= room && room % TWO32 < |next(s).bytes|
  }

  /** At `k`, behind `n` bytes. */
  ghost predicate StallsAt(next: Speller, s: seq<unichar>, room: nat, k: nat, n: nat) {
    k <= |s| && Spans(next, s, k, n) && Hidden(next, s[k..], room - n)
  }

  ghost predicate Stalls(next: Speller, s: seq<unichar>, room: nat) {
    exists k: nat, n: nat :: StallsAt(next, s, room, k, n)
  }

  /** Pieces of at most four bytes. */
  ghost predicate Brief(next: Speller) {
    forall s: seq<unichar> {:trigger next(s)} :: next(s).Piece? ==> |next(s).bytes| <= 4
  }

  lemma AdmitsIff(room: nat, n: nat)
    requires n <= 4
    ensures Admits(room, n) <==> Fits(room, n) && !(1 < n && TWO32 <= room && room % TWO32 < n)
  {
  }

  lemma StallsLater(next: Speller, s: seq<unichar>, room: nat, k: nat, n: nat)
    requires Begins(next, s) && Fits(room, |next(s).bytes|)
    ensures var p := next(s);
            k >= p.units && n >= |p.bytes| ==>
              (StallsAt(next, s, room, k, n)
               <==> StallsAt(next, s[p.units..], room - |p.bytes|, k - p.units, n - |p.bytes|)
                    || (k == 0 && n == 0 && Hidden(next, s, room)))
    ensures k < next(s).units || n < |next(s).bytes| ==>
              (StallsAt(next, s, room, k, n) <==> k == 0 && n == 0 && Hidden(next, s, room))
  {
    assert s[0..] == s;
    if next(s).units <= k <= |s| {
      DropTwice(s, next(s).units, k - next(s).units);
    }
  }

  lemma StallsAlike(next: Speller, s: seq<unichar>, room: nat, rest: seq<unichar>, left: nat)
    requires Begins(next, s) && Fits(room, |next(s).bytes|)
    requires rest == s[next(s).units..] && left == room - |next(s).bytes|
    ensures Stalls(next, s, room) <==> Hidden(next, s, room) || Stalls(next, rest, left)
  {
    var p := next(s);
    if Hidden(next, s, room) {
      assert s[0..] == s;
      assert StallsAt(next, s, room, 0, 0);
    }
    if k: nat, n: nat :| StallsAt(next, s, room, k, n) {
      StallsLater(next, s, room, k, n);
      if k >= p.units && n >= |p.bytes| && !(k == 0 && n == 0 && Hidden(next, s, room)) {
        assert StallsAt(next, rest, left, k - p.units, n - |p.bytes|);
      }
    }
    if k: nat, n: nat :| StallsAt(next, rest, left, k, n) {
      StallsLater(next, s, room, k + p.units, n + |p.bytes|);
      assert StallsAt(next, s, room, k + p.units, n + |p.bytes|);
    }
  }

  lemma NoStall(next: Speller, s: seq<unichar>, room: nat)
    requires Brief(next) && (Begins(next, s) ==> !Fits(room, |next(s).bytes|))
    ensures !Stalls(next, s, room)
  {
    assert s[0..] == s;
  }

  lemma SameRest<T>(u: nat, b: seq<T>, x: Coded<T>, y: Coded<T>)
    ensures Coded(u + x.consumed, b + x.out) == Coded(u + y.consumed, b + y.out) <==> x == y
  {
    if b + x.out == b + y.out {
      assert x.out == (b + x.out)[|b|..] && y.out == (b + y.out)[|b|..];
    }
  }

  lemma {:induction false} LimitIff(next: Speller, s: seq<unichar>, room: nat)
    requires Brief(next)
    ensures Spell(next, s, room) == Within(next, s, room) <==> !Stalls(next, s, room)
    decreases |s|
  {
    if !Begins(next, s) || !Fits(room, |next(s).bytes|) {
      NoStall(next, s, room);
    } else {
      var p := next(s);
      var rest, left := s[p.units..], room - |p.bytes|;
      AdmitsIff(room, |p.bytes|);
      StallsAlike(next, s, room, rest, left);
      LimitIff(next, rest, left);
      SameRest(p.units, p.bytes, Spell(next, rest, left), Within(next, rest, left));
    }
  }

  /** The characters before unit `k` give `n` bytes, and the room behind them hides that the next one fits. */
  ghost predicate RoomHiddenAt(strict: bool, s: seq<unichar>, room: nat, k: nat, n: nat) {
    && k < |s| && Spans(Spellings(strict), s, k, n) && NextChar(strict, s[k..]).Char? && TWO32 <= room - n
    && 0x80 <= NextChar(strict, s[k..]).v && (room - n) % TWO32 < Width(NextChar(strict, s[k..]).v)
  }

  /**
   A limit is one, exactly if no character from U+0080 on begins where the room left is 2^32 or more
   and its low 32 bits are less than the width of the character.
   */
  lemma EncodeLimitIff(strict: bool, s: seq<unichar>, room: nat)
    ensures Encode(strict, s, room) == Within(Spellings(strict), s, room)
            <==> !exists k: nat, n: nat :: RoomHiddenAt(strict, s, room, k, n)
  {
    var next := Spellings(strict);
    LimitIff(next, s, room);
    forall k: nat, n: nat ensures RoomHiddenAt(strict, s, room, k, n) <==> StallsAt(next, s, room, k, n) {
    }
  }

  /** So below 2^32 a limit is one. */
  lemma EncodeLimited(strict: bool, s: seq<unichar>, room: nat)
    requires room < TWO32
    ensures Encode(strict, s, room) == Within(Spellings(strict), s, room)
  {
    EncodeLimitIff(strict, s, room);
  }

  /** U+00E9 into a buffer of 2^32 bytes: nothing is consumed. */
  lemma RoomHidden(s: seq<unichar>)
    requires s == [0xE9]
    ensures Encode(true, s, TWO32) == Coded(0, [])
    ensures Within(Spellings(true), s, TWO32) == Coded(1, [0xC3, 0xA9])
  {
    assert s[1..] == [];
    assert Encode8(0xE9) == [0xC3, 0xA9];
  }

  /** Enough room below 2^32 is as good as no limit. */
  lemma {:induction false} EnoughRoom(next: Speller, s: seq<unichar>, room: nat)
    requires |Spell(next, s, -1).out| <= room < TWO32
    ensures Spell(next, s, room) == Spell(next, s, -1)
    decreases |s|
  {
    if Begins(next, s) {
      var p := next(s);
      EnoughRoom(next, s[p.units..], room - |p.bytes|);
    }
  }

  lemma EncodeEnough(strict: bool, s: seq<unichar>, room: nat)
    requires |Encode(strict, s, -1).out| <= room < TWO32
    ensures Encode(strict, s, room) == Encode(strict, s, -1)
  {
    EnoughRoom(Spellings(strict), s, room);
  }

  // ----- Where strict encoding stops -----

  /** The first `n` units are the text `vs`, and a surrogate without a partner follows. */
  ghost predicate TextUpTo(s: seq<unichar>, n: nat, vs: seq<Scalar>) {
    n <= |s| && s[..n] == AllUtf16(vs) && (n < |s| ==> NextChar(true, s[n..]).Stop?)
  }

  lemma TextLater(s: seq<unichar>, n: nat, rest: seq<Scalar>)
    requires s != [] && NextChar(true, s).Char? && TextUpTo(s[NextChar(true, s).units..], n, rest)
    ensures var c := NextChar(true, s);
            0 <= c.v <= 0x10FFFF && !(0xD800 <= c.v <= 0xDFFF) && TextUpTo(s, c.units + n, [c.v] + rest)
  {
    TextStep16(s, rest, n);
    DropTwice(s, NextChar(true, s).units, n);
  }

  /** A strict conversion stops exactly at the first surrogate without a partner. */
  lemma {:induction false} EncodeStops(s: seq<unichar>) returns (vs: seq<Scalar>)
    ensures var e := Encode(true, s, -1);
            TextUpTo(s, e.consumed, vs) && e.out == AllUtf8(vs) && Utf8String(e.out)
    decreases |s|
  {
    if s == [] {
      return [];
    }
    if NextChar(true, s).Stop? {
      assert s[0..] == s;
      return [];
    }
    EncodeUnlimited(true, s);
    var c := NextChar(true, s);
    var rest := EncodeStops(s[c.units..]);
    TextLater(s, Encode(true, s[c.units..], -1).consumed, rest);
    vs := [c.v] + rest;
    assert vs[1..] == rest;
    TextUtf8(vs);
  }

  lemma TextStep16(s: seq<unichar>, rest: seq<Scalar>, n: nat)
    requires s != [] && NextChar(true, s).Char? && n <= |s| - NextChar(true, s).units
    requires s[NextChar(true, s).units..][..n] == AllUtf16(rest)
    ensures var c := NextChar(true, s);
            0 <= c.v <= 0x10FFFF && !(0xD800 <= c.v <= 0xDFFF) && s[..c.units + n] == AllUtf16([c.v] + rest)
  {
    var c := NextChar(true, s);
    var v: Scalar := c.v;
    if c.units == 2 {
      CombineInverts(s[0], s[1]);
    }
    assert Encode16(v) == s[..c.units];
    assert ([v] + rest)[1..] == rest;
    assert s[..c.units + n] == s[..c.units] + s[c.units..][..n];
  }

  // ----- From UTF-8 -----

  /** The number of bytes that a first byte announces. */
  function Trailing(b: byte): nat {
    if b < 0xC0 then 0 else if b < 0xE0 then 1 else if b < 0xF0 then 2
    else if b < 0xF8 then 3 else if b < 0xFC then 4 else 5
  }

  /** A sequence of the grammar has the length that its first byte announces. */
  lemma TrailingOfChar(b: seq<byte>)
    requires Utf8Char(b)
    ensures |b| == Trailing(b[0]) + 1
  {
  }

  datatype NextByte = Bad | Lone | Good(v: Scalar, bytes: nat)

  /**
   The first sequence of `b`, if the grammar has it. A byte 0xA9 that starts none stands for itself,
   and so does any byte if loss is allowed.
   */
  function NextSequence(lossy: bool, b: seq<byte>): (c: NextByte)
    requires b != []
    ensures c.Good? ==> 1 <= c.bytes <= |b|
  {
    var n := Trailing(b[0]) + 1;
    if n > |b| then Bad
    else if Utf8Char(b[..n]) then Good(Decode8(b[..n]), n)
    else if b[0] == 0xA9 || lossy then Lone
    else Bad
  }

  function Units(c: NextByte): (u: seq<unichar>)
    requires !c.Bad?
    ensures 1 <= |u| <= 2 && !IsHigh(u[|u| - 1]) && (|u| == 2 ==> IsHigh(u[0]))
  {
    if c.Lone? then [REPLACEMENT] else Encode16(c.v)
  }

  function Size(c: NextByte): nat
    requires !c.Bad?
  {
    if c.Lone? then 1 else c.bytes
  }

  /** Any way to read the first sequence. */
  type Reader = seq<byte> -> NextByte

  predicate Reads(next: Reader, b: seq<byte>) {
    b != [] && !next(b).Bad? && 1 <= Size(next(b)) <= |b|
  }

  function Sequences(lossy: bool): Reader {
    b => if b == [] then Bad else NextSequence(lossy, b)
  }

  /** Decoding with any reader. */
  function Run(next: Reader, b: seq<byte>, room: int): Coded<unichar>
    decreases |b|
  {
    if room == 0 || !Reads(next, b) then Coded(0, [])
    else
      var c := next(b);
      // a pair that does not fit is consumed all the same
      if !Fits(room, |Units(c)|) then Coded(Size(c), [])
      else
        var rest := Run(next, b[Size(c)..], Less(room, |Units(c)|));
        Coded(Size(c) + rest.consumed, Units(c) + rest.out)
  }

  /** What is decoded of `b` into `room` units. */
  function Decode(lossy: bool, b: seq<byte>, room: int): Coded<unichar> {
    Run(Sequences(lossy), b, room)
  }

  lemma NextOfEncoded(lossy: bool, v: Scalar, rest: seq<byte>)
    ensures NextSequence(lossy, Encode8(v) + rest) == Good(v, |Encode8(v)|)
    ensures (Encode8(v) + rest)[|Encode8(v)|..] == rest
  {
    var b := Encode8(v) + rest;
    Encode8Inverts(v);
    TrailingOfChar(Encode8(v));
    assert b[..|Encode8(v)|] == Encode8(v) && b[0] == Encode8(v)[0];
  }

  /** Well-formed bytes give back the text, with nothing left over. */
  lemma {:induction false} DecodeText(lossy: bool, vs: seq<Scalar>)
    ensures Decode(lossy, AllUtf8(vs), -1) == Coded(|AllUtf8(vs)|, AllUtf16(vs))
    decreases |vs|
  {
    if vs != [] {
      DecodeText(lossy, vs[1..]);
      NextOfEncoded(lossy, vs[0], AllUtf8(vs[1..]));
    }
  }

  /** Encode, then decode: the same characters, all of them. */
  lemma EncodeDecode(lossy: bool, vs: seq<Scalar>)
    ensures var s := AllUtf16(vs);
            var e := Encode(true, s, -1);
            e.consumed == |s| && Decode(lossy, e.out, -1) == Coded(|e.out|, s)
  {
    EncodeText(true, vs);
    DecodeText(lossy, vs);
  }

  /** Decode, then encode: for every string of the grammar the same bytes, all of them. */
  lemma DecodeEncode(lossy: bool, b: seq<byte>)
    requires Utf8String(b)
    ensures var d := Decode(lossy, b, -1);
            d.consumed == |b| && Encode(true, d.out, -1) == Coded(|d.out|, b)
  {
    var vs := Utf8Text(b);
    EncodeText(true, vs);
    DecodeText(lossy, vs);
  }

  // ----- Where decoding stops -----

  /** The grammar, and the byte 0xA9 that is let through. */
  ghost predicate Accepted(b: seq<byte>)
    decreases |b|
  {
    || b == []
    || (b[0] == 0xA9 && Accepted(b[1..]))
    || exists n | 1 <= n <= 4 && n <= |b| :: Utf8Char(b[..n]) && Accepted(b[n..])
  }

  lemma FirstOfPrefix(b: seq<byte>, n: nat)
    requires 1 <= n <= |b| && Utf8Char(b[..n])
    ensures n == Trailing(b[0]) + 1 && b[0] != 0xA9
  {
    TrailingOfChar(b[..n]);
    assert b[..n][0] == b[0];
  }

  /** Everything is consumed exactly if every byte belongs to a sequence of the grammar or is such an 0xA9. */
  lemma {:induction false} DecodesAllIffAccepted(b: seq<byte>)
    ensures Decode(false, b, -1).consumed <= |b|
    ensures Decode(false, b, -1).consumed == |b| <==> Accepted(b)
    decreases |b|
  {
    if b != [] {
      var c := NextSequence(false, b);
      forall n | 1 <= n <= 4 && n <= |b| && Utf8Char(b[..n]) ensures c.Good? && c.bytes == n {
        FirstOfPrefix(b, n);
      }
      if !c.Bad? {
        DecodesAllIffAccepted(b[Size(c)..]);
        if c.Good? {
          FirstOfPrefix(b, c.bytes);
        }
      }
    }
  }

  lemma AcceptedStep(head: seq<byte>, tail: seq<byte>)
    requires (head == [0xA9] || Utf8Char(head)) && Accepted(tail)
    ensures Accepted(head + tail)
  {
    var b, n := head + tail, |head|;
    assert b[..n] == head && b[n..] == tail;
  }

  /** No sequence of the grammar begins the bytes, and neither does the byte 0xA9. */
  ghost predicate NothingBegins(b: seq<byte>) {
    b != [] && b[0] != 0xA9 && forall n | 1 <= n <= |b| :: !Utf8Char(b[..n])
  }

  lemma BadMeansNothingBegins(b: seq<byte>)
    requires b != []
    ensures NextSequence(false, b).Bad? <==> NothingBegins(b)
  {
    forall n | 1 <= n <= |b| && Utf8Char(b[..n]) ensures NextSequence(false, b).Good? {
      FirstOfPrefix(b, n);
    }
  }

  lemma AcceptedFirst(b: seq<byte>, n: nat)
    requires b != [] && !NextSequence(false, b).Bad? && Size(NextSequence(false, b)) + n <= |b|
    requires Accepted(b[Size(NextSequence(false, b))..][..n])
    ensures Accepted(b[..Size(NextSequence(false, b)) + n])
  {
    var k := Size(NextSequence(false, b));
    TakeDrop(b, k, n);
    AcceptedStep(b[..k], b[k..][..n]);
  }

  lemma DecodeFirst(lossy: bool, b: seq<byte>)
    requires b != []
    ensures NextSequence(lossy, b).Bad? ==> Decode(lossy, b, -1).consumed == 0
    ensures !NextSequence(lossy, b).Bad? ==>
              var k := Size(NextSequence(lossy, b));
              k <= |b| && Decode(lossy, b, -1).consumed == k + Decode(lossy, b[k..], -1).consumed
  {
  }

  /** Up to `n` all is accepted, and nothing begins there. */
  ghost predicate StopsAt(b: seq<byte>, n: nat) {
    n <= |b| && Accepted(b[..n]) && (n < |b| ==> NothingBegins(b[n..]))
  }

  lemma StopsLater(b: seq<byte>, k: nat, n: nat)
    requires b != [] && !NextSequence(false, b).Bad? && k == Size(NextSequence(false, b)) <= |b| && StopsAt(b[k..], n)
    ensures StopsAt(b, k + n)
  {
    AcceptedFirst(b, n);
    DropTwice(b, k, n);
  }

  /** Decoding accepts what it consumes and stops where nothing that it accepts begins. */
  lemma {:induction false} DecodeStops(b: seq<byte>)
    ensures StopsAt(b, Decode(false, b, -1).consumed)
    decreases |b|
  {
    if b != [] {
      DecodeFirst(false, b);
      if NextSequence(false, b).Bad? {
        assert b[0..] == b;
        BadMeansNothingBegins(b);
      } else {
        var k := Size(NextSequence(false, b));
        DecodeStops(b[k..]);
        StopsLater(b, k, Decode(false, b[k..], -1).consumed);
      }
    }
  }

  // ----- Decoding into a buffer of limited size -----

  /** The limit falls between the two halves of a pair. */
  predicate Straddles(out: seq<unichar>, room: nat) {
    0 < room <= |out| && IsHigh(out[room - 1])
  }

  lemma StraddlesBehind(u: seq<unichar>, out: seq<unichar>, room: nat)
    requires 1 <= |u| <= 2 && !IsHigh(u[|u| - 1]) && |u| <= room
    ensures Straddles(u + out, room) <==> Straddles(out, room - |u|)
  {
    if |u| < room <= |u| + |out| {
      assert (u + out)[room - 1] == out[room - |u| - 1];
    }
  }

  /** Reading with a limit, then going on behind what was consumed, loses `lost`. */
  ghost predicate Loses(next: Reader, b: seq<byte>, room: int, lost: seq<unichar>) {
    var all, d := Run(next, b, -1), Run(next, b, room);
    d.consumed <= |b| && |d.out| <= room &&
    var rest := Run(next, b[d.consumed..], -1);
    all.consumed == d.consumed + rest.consumed && all.out == d.out + lost + rest.out
  }

  lemma LosesLater(next: Reader, b: seq<byte>, room: nat, lost: seq<unichar>)
    requires Reads(next, b) && |Units(next(b))| < room && Loses(next, b[Size(next(b))..], room - |Units(next(b))|, lost)
    ensures Loses(next, b, room, lost)
  {
    var n, u := Size(next(b)), Units(next(b));
    var e := Run(next, b[n..], room - |u|);
    DropTwice(b, n, e.consumed);
    Joined(u, e.out, lost, Run(next, b[n + e.consumed..], -1).out, Run(next, b[n..], -1).out);
  }

  lemma Joined<T>(u: seq<T>, a: seq<T>, b: seq<T>, c: seq<T>, all: seq<T>)
    requires all == a + b + c
    ensures u + all == u + a + b + c
  {
  }

  /** Nothing is lost unless the limit falls between the halves of a pair, and then exactly two units are. */
  lemma {:induction false} RunContinues(next: Reader, b: seq<byte>, room: nat) returns (lost: seq<unichar>)
    requires room > 0
    ensures Loses(next, b, room, lost) && |lost| == if Straddles(Run(next, b, -1).out, room) then 2 else 0
    decreases |b|
  {
    if !Reads(next, b) {
      assert b[0..] == b;
      return [];
    }
    var n, u, tail := Size(next(b)), Units(next(b)), Run(next, b[Size(next(b))..], -1).out;
    if room < |u| {
      assert [] + u == u;
      return u;
    }
    StraddlesBehind(u, tail, room);
    if room == |u| {
      assert u + [] == u;
      return [];
    }
    lost := RunContinues(next, b[n..], room - |u|);
    LosesLater(next, b, room, lost);
  }

  /** The first sequences of `b` take `k` bytes and give `u` units. */
  ghost predicate Gives(next: Reader, b: seq<byte>, k: nat, u: nat)
    decreases |b|
  {
    || (k == 0 && u == 0)
    || (Reads(next, b) && Size(next(b)) <= k && |Units(next(b))| <= u
        && Gives(next, b[Size(next(b))..], k - Size(next(b)), u - |Units(next(b))|))
  }

  /** A sequence that gives a pair begins where one unit is left. */
  ghost predicate CutAt(next: Reader, b: seq<byte>, room: nat, k: nat) {
    room > 0 && k < |b| && Gives(next, b, k, room - 1) && Reads(next, b[k..]) && |Units(next(b[k..]))| == 2
  }

  lemma CutLater(next: Reader, b: seq<byte>, room: nat, k: nat)
    requires Reads(next, b) && |Units(next(b))| < room
    ensures k >= Size(next(b)) ==>
              (CutAt(next, b, room, k)
               <==> CutAt(next, b[Size(next(b))..], room - |Units(next(b))|, k - Size(next(b))))
    ensures k < Size(next(b)) ==> !CutAt(next, b, room, k)
  {
    if Size(next(b)) <= k <= |b| {
      DropTwice(b, Size(next(b)), k - Size(next(b)));
    }
  }

  lemma {:induction false} StraddlesIffCut(next: Reader, b: seq<byte>, room: nat)
    requires room > 0
    ensures Straddles(Run(next, b, -1).out, room) <==> exists k: nat :: CutAt(next, b, room, k)
    decreases |b|
  {
    assert b[0..] == b;
    if Reads(next, b) {
      var n, u := Size(next(b)), Units(next(b));
      if room < |u| {
        assert CutAt(next, b, room, 0);
      } else {
        StraddlesBehind(u, Run(next, b[n..], -1).out, room);
        if room > |u| {
          StraddlesIffCut(next, b[n..], room - |u|);
          CutsAlike(next, b, room, b[n..], room - |u|);
        }
      }
    }
  }

  lemma CutsAlike(next: Reader, b: seq<byte>, room: nat, rest: seq<byte>, left: nat)
    requires Reads(next, b) && |Units(next(b))| < room && rest == b[Size(next(b))..] && left == room - |Units(next(b))|
    ensures (exists k: nat :: CutAt(next, b, room, k)) <==> exists k: nat :: CutAt(next, rest, left, k)
  {
    var n := Size(next(b));
    if k: nat :| CutAt(next, b, room, k) {
      CutLater(next, b, room, k);
      assert CutAt(next, rest, left, k - n);
    }
    if k: nat :| CutAt(next, rest, left, k) {
      CutLater(next, b, room, k + n);
      assert CutAt(next, b, room, k + n);
    }
  }

  ghost predicate FourAt(lossy: bool, b: seq<byte>) {
    b != [] && NextSequence(lossy, b).Good? && NextSequence(lossy, b).bytes == 4
  }

  /** At `k`, where one unit is left, a sequence of four bytes begins. */
  ghost predicate CutsPairAt(lossy: bool, b: seq<byte>, room: nat, k: nat) {
    room > 0 && k < |b| && Gives(Sequences(lossy), b, k, room - 1) && FourAt(lossy, b[k..])
  }

  ghost predicate CutsPair(lossy: bool, b: seq<byte>, room: nat) {
    exists k: nat :: CutsPairAt(lossy, b, room, k)
  }

  lemma FourIsPair(lossy: bool, b: seq<byte>)
    requires b != []
    ensures FourAt(lossy, b) <==> Reads(Sequences(lossy), b) && |Units(NextSequence(lossy, b))| == 2
  {
  }

  lemma CutsPairIff(lossy: bool, b: seq<byte>, room: nat)
    requires room > 0
    ensures CutsPair(lossy, b, room) <==> Straddles(Run(Sequences(lossy), b, -1).out, room)
  {
    forall k: nat ensures CutsPairAt(lossy, b, room, k) <==> CutAt(Sequences(lossy), b, room, k) {
      if k < |b| {
        FourIsPair(lossy, b[k..]);
      }
    }
    StraddlesIffCut(Sequences(lossy), b, room);
  }

  lemma DecodeContinues(lossy: bool, b: seq<byte>, room: nat) returns (lost: seq<unichar>)
    requires room > 0
    ensures var all, d := Decode(lossy, b, -1), Decode(lossy, b, room);
            d.consumed <= |b| && |d.out| <= room &&
            var rest := Decode(lossy, b[d.consumed..], -1);
            && all.consumed == d.consumed + rest.consumed && all.out == d.out + lost + rest.out
            && |lost| == if CutsPair(lossy, b, room) then 2 else 0
  {
    lost := RunContinues(Sequences(lossy), b, room);
    CutsPairIff(lossy, b, room);
  }

  /** So continuing gives the same as one shot exactly if no sequence of four bytes begins where one unit is left. */
  lemma DecodeChunkIff(lossy: bool, b: seq<byte>, room: nat)
    requires room > 0
    ensures var all, d := Decode(lossy, b, -1), Decode(lossy, b, room);
            d.consumed <= |b| &&
            (all.out == d.out + Decode(lossy, b[d.consumed..], -1).out <==> !CutsPair(lossy, b, room))
  {
    var lost := DecodeContinues(lossy, b, room);
    var d := Decode(lossy, b, room);
    assert lost == [] ==> d.out + lost == d.out;
  }

  /** U+10000 into a buffer for one character: four bytes are consumed and nothing is written. */
  lemma PairLost()
    ensures Decode(false, [0xF0, 0x90, 0x80, 0x80], 1) == Coded(4, [])
  {
    var b: seq<byte> := [0xF0, 0x90, 0x80, 0x80];
    assert b[..4] == b;
    assert Utf8Char(b);
    assert NextSequence(false, b) == Good(0x10000, 4);
  }

  // ----- Lengths -----

  /** `n` times the letter A. */
  ghost function Letters(n: nat): seq<unichar> {
    seq(n, i => 0x41)
  }

  lemma {:induction false} LettersOut(strict: bool, n: nat)
    ensures Encode(strict, Letters(n), -1).consumed == n && |Encode(strict, Letters(n), -1).out| == n
  {
    if n > 0 {
      assert Letters(n)[1..] == Letters(n - 1);
      LettersOut(strict, n - 1);
    }
  }

  /** Counting without being strict never counts less, and counts the same if strictness stops nowhere. */
  lemma {:induction false} StrictIsNotLonger(s: seq<unichar>)
    ensures Encode(false, s, -1).consumed == |s|
    ensures |Encode(true, s, -1).out| <= |Encode(false, s, -1).out|
    ensures Encode(true, s, -1).consumed == |s| ==> Encode(true, s, -1) == Encode(false, s, -1)
    decreases |s|
  {
    if s != [] {
      StrictIsNotLonger(s[NextChar(false, s).units..]);
      EncodeConsumed(true, s, -1);
    }
  }
}
