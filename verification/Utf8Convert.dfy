/** The converters between UTF-16 and UTF-8. */
module Utf8Convert {
  import opened Bytes
  import opened Utf8
  import opened Utf8Spec

  // ----- To UTF-8 -----

  /** What is in the buffer from `at` on. */
  ghost predicate Wrote<T>(now: seq<T>, was: seq<T>, at: nat, b: seq<T>) {
    |now| == |was| && at + |b| <= |now| && now == was[..at] + b + was[at + |b|..]
  }

  /** Writes one character from its last byte to its first, unless it does not fit. */
  method ToUTF8Core(ch: nat, bytes: array<byte>, at: nat, maxByteLen: nat) returns (written: nat)
    requires ch <= 0x10FFFF && at + maxByteLen <= bytes.Length
    modifies bytes
    ensures written == if maxByteLen < Width(ch) then 0 else Width(ch)
    ensures Wrote(bytes[..], old(bytes[..]), at, if written == 0 then [] else Encode8(ch))
  {
    var n := Width(ch);
    if maxByteLen < n {
      return 0;
    }
    var c := ch;
    if n == 4 {
      bytes[at + 3] := 0x80 + c % 64;
      c := c / 64;
    }
    if n >= 3 {
      bytes[at + 2] := 0x80 + c % 64;
      c := c / 64;
    }
    if n >= 2 {
      bytes[at + 1] := 0x80 + c % 64;
      c := c / 64;
    }
    bytes[at] := c + (if n == 1 then 0 else if n == 2 then 0xC0 else if n == 3 then 0xE0 else 0xF0);
    ghost var b := Encode8(ch);
    assert bytes[at] == b[0] && (n > 1 ==> bytes[at + 1] == b[1]) && (n > 2 ==> bytes[at + 2] == b[2]) &&
           (n > 3 ==> bytes[at + 3] == b[3]);
    WroteAt(bytes[..], old(bytes[..]), at, b);
    return n;
  }

  lemma WroteAt<T>(now: seq<T>, was: seq<T>, at: nat, b: seq<T>)
    requires |now| == |was| && at + |b| <= |now|
    requires forall j | 0 <= j < |now| :: now[j] == if at <= j < at + |b| then b[j - at] else was[j]
    ensures Wrote(now, was, at, b)
  {
  }

  /** Reads the character at `i`, both halves of it if it is a pair. */
  method Fetch(strict: bool, s: seq<unichar>, i: nat) returns (c: Next)
    requires i < |s|
    ensures c == NextChar(strict, s[i..])
  {
    var ch: nat := s[i];
    if ch >= 0xD800 {
      if ch <= 0xDBFF {
        if i + 1 < |s| && 0xDC00 <= s[i + 1] <= 0xDFFF {
          return Char((ch - 0xD800) * 0x400 + (s[i + 1] - 0xDC00) + 0x10000, 2);
        } else if strict {
          return Stop;
        }
      } else if strict && ch <= 0xDFFF {
        return Stop;
      }
    }
    return Char(ch, 1);
  }

  /** Writes a character, or only measures it if there is no buffer. */
  method Emit(ch: nat, bytes: array<byte>, at: nat, maxByteLen: nat) returns (written: nat)
    requires ch <= 0x10FFFF && maxByteLen <= bytes.Length && (maxByteLen > 0 ==> at < maxByteLen)
    modifies bytes
    ensures written == if maxByteLen > 0 && !Admits(maxByteLen - at, Width(ch)) then 0 else Width(ch)
    ensures if maxByteLen == 0 then bytes[..] == old(bytes[..])
            else Wrote(bytes[..], old(bytes[..]), at, if written == 0 then [] else Encode8(ch))
  {
    if ch < 0x80 {
      if maxByteLen > 0 {
        bytes[at] := ch;
      }
      return 1;
    }
    if maxByteLen > 0 {
      // the parameter has 32 bits
      written := ToUTF8Core(ch, bytes, at, (maxByteLen - at) % TWO32);
    } else {
      written := Width(ch);
    }
  }

  ghost function Then<T>(i: nat, done: seq<T>, rest: Coded<T>): Coded<T> {
    Coded(i + rest.consumed, done + rest.out)
  }

  /** After `i` units: what is written so far and what is still to come make up the whole. */
  ghost predicate Sofar(next: Speller, s: seq<unichar>, room: int, i: nat, done: seq<byte>) {
    && i <= |s| && Fits(room, |done|)
    && Spell(next, s, room) == Then(i, done, Spell(next, s[i..], Less(room, |done|)))
  }

  lemma SofarStart(next: Speller, s: seq<unichar>, room: int)
    ensures Sofar(next, s, room, 0, [])
  {
    assert s[0..] == s;
    var e := Spell(next, s, room);
    assert [] + e.out == e.out;
  }

  lemma SofarStep(next: Speller, s: seq<unichar>, room: int, i: nat, done: seq<byte>, p: Piece)
    requires Sofar(next, s, room, i, done) && p == next(s[i..]) && Spells(next, s[i..], Less(room, |done|))
    ensures Sofar(next, s, room, i + p.units, done + p.bytes)
  {
    DropTwice(s, i, p.units);
    var rest := Spell(next, s[i + p.units..], Less(Less(room, |done|), |p.bytes|));
    Associate(done, p.bytes, rest.out);
  }

  lemma SofarEnd(next: Speller, s: seq<unichar>, room: int, i: nat, done: seq<byte>)
    requires Sofar(next, s, room, i, done) && !Spells(next, s[i..], Less(room, |done|))
    ensures Spell(next, s, room) == Coded(i, done)
  {
    assert done + [] == done;
  }

  lemma WroteMore<T>(now: seq<T>, mid: seq<T>, was: seq<T>, done: seq<T>, b: seq<T>)
    requires Wrote(mid, was, 0, done) && Wrote(now, mid, |done|, b)
    ensures Wrote(now, was, 0, done + b)
  {
    assert mid[..|done|] == done && mid[|done| + |b|..] == was[|done| + |b|..];
  }

  /** The buffer has what is written so far, unless there is no buffer. */
  ghost predicate Written<T>(now: seq<T>, was: seq<T>, done: seq<T>, limit: nat) {
    if limit == 0 then now == was else Wrote(now, was, 0, done)
  }

  /** The speller of characters, at least one byte each. */
  ghost predicate Spelled(strict: bool, next: Speller) {
    forall s: seq<unichar> {:trigger NextChar(strict, s)} :: s != [] ==> next(s) == Spelling(strict, s)
  }

  /** Reads the character at `i` and writes it, if there is one and it fits. */
  method EmitAt(strict: bool, s: seq<unichar>, i: nat, bytes: array<byte>, at: nat, maxByteLen: nat,
                ghost was: seq<byte>, ghost done: seq<byte>, ghost next: Speller) returns (units: nat, written: nat)
    requires i < |s| && maxByteLen <= bytes.Length && (maxByteLen > 0 ==> at < maxByteLen) && |done| == at
    requires Written(bytes[..], was, done, maxByteLen) && Spelled(strict, next)
    modifies bytes
    ensures var p, room := next(s[i..]), if maxByteLen == 0 then -1 else maxByteLen - at;
            if Spells(next, s[i..], room) then
              units == p.units && written == |p.bytes| > 0 && Written(bytes[..], was, done + p.bytes, maxByteLen)
            else written == 0 && Written(bytes[..], was, done, maxByteLen)
  {
    var c := Fetch(strict, s, i);
    assert next(s[i..]) == Spelling(strict, s[i..]);
    if c.Stop? {
      return 0, 0;
    }
    ghost var mid := bytes[..];
    written := Emit(c.v, bytes, at, maxByteLen);
    units := c.units;
    if maxByteLen > 0 {
      WroteMore(bytes[..], mid, was, done, if written == 0 then [] else Encode8(c.v));
      assert done + [] == done;
    }
  }

  method EmitAll(strict: bool, s: seq<unichar>, bytes: array<byte>, maxByteLen: nat, ghost next: Speller)
    returns (consumed: nat, used: nat)
    requires maxByteLen <= bytes.Length && Spelled(strict, next)
    modifies bytes
    ensures var e := Spell(next, s, if maxByteLen == 0 then -1 else maxByteLen);
            consumed == e.consumed && used == |e.out| && Written(bytes[..], old(bytes[..]), e.out, maxByteLen)
  {
    ghost var room, was := if maxByteLen == 0 then -1 else maxByteLen, bytes[..];
    ghost var done: seq<byte> := [];
    consumed, used := 0, 0;
    SofarStart(next, s, room);
    while consumed < |s| && (maxByteLen == 0 || used < maxByteLen)
      invariant Sofar(next, s, room, consumed, done) && used == |done|
      invariant Written(bytes[..], was, done, maxByteLen)
    {
      ghost var p := next(s[consumed..]);
      var units, written := EmitAt(strict, s, consumed, bytes, used, maxByteLen, was, done, next);
      if written == 0 {
        SofarEnd(next, s, room, consumed, done);
        return;
      }
      SofarStep(next, s, room, consumed, done, p);
      done := done + p.bytes;
      consumed, used := consumed + units, used + written;
    }
    NothingLeft(strict, s, consumed, room, |done|, next);
    SofarEnd(next, s, room, consumed, done);
  }

  /** A full buffer has no room for anything. */
  lemma NothingLeft(strict: bool, s: seq<unichar>, i: nat, room: int, used: nat, next: Speller)
    requires i <= |s| && Spelled(strict, next) && (i == |s| || Less(room, used) == 0)
    ensures !Spells(next, s[i..], Less(room, used))
  {
    if i < |s| {
      assert next(s[i..]) == Spelling(strict, s[i..]);
      var _ := NextChar(strict, s[i..]);
    }
  }

  /** Converts as much as fits. A limit of 0 is none: the bytes are counted and not written. */
  method ToUTF8(strict: bool, s: seq<unichar>, bytes: array<byte>, maxByteLen: nat) returns (consumed: nat, used: nat)
    requires maxByteLen <= bytes.Length
    modifies bytes
    ensures var e := Encode(strict, s, if maxByteLen == 0 then -1 else maxByteLen);
            consumed == e.consumed && used == |e.out| && Written(bytes[..], old(bytes[..]), e.out, maxByteLen)
  {
    consumed, used := EmitAll(strict, s, bytes, maxByteLen, Spellings(strict));
  }

  // ----- From UTF-8 -----

  /** Checks the continuation bytes from the last to the first, then the first byte with the second. */
  method IsLegalUTF8(b: seq<byte>, at: nat, length: nat) returns (legal: bool)
    requires at + length <= |b| && length > 0 && length == Trailing(b[at]) + 1
    ensures legal == Utf8Char(b[at..at + length])
  {
    ghost var c := b[at..at + length];
    if length > 4 {
      return false;
    }
    var head := b[at];
    var i := length - 1;
    while i > 0
      invariant 0 <= i < length
      invariant forall j | i < j < length :: Tail(c[j])
    {
      assert c[i] == b[at + i];
      if !(0x80 <= b[at + i] < 0xC0) {
        return false;
      }
      i := i - 1;
    }
    assert c[0] == head && (length > 1 ==> c[1] == b[at + 1]);
    if (0x80 <= head < 0xC2) || 0xF4 < head {
      return false;
    }
    if (head == 0xE0 && b[at + 1] < 0xA0) || (head == 0xED && b[at + 1] > 0x9F) ||
       (head == 0xF0 && b[at + 1] < 0x90) || (head == 0xF4 && b[at + 1] > 0x8F) {
      return false;
    }
    return true;
  }

  const OFFSETS := [0, 0x3080, 0xE2080, 0x3C82080]

  /** One subtraction takes all the marks away. */
  lemma MarksTaken(c: seq<byte>)
    requires Utf8Char(c)
    ensures |c| == 1 ==> Decode8(c) == c[0]
    ensures |c| == 2 ==> Decode8(c) == c[0] as int * 64 + c[1] - OFFSETS[1]
    ensures |c| == 3 ==> Decode8(c) == (c[0] as int * 64 + c[1]) * 64 + c[2] - OFFSETS[2]
    ensures |c| == 4 ==> Decode8(c) == ((c[0] as int * 64 + c[1]) * 64 + c[2]) * 64 + c[3] - OFFSETS[3]
  {
  }

  /** Adds up the bytes as they are. */
  method Gather(b: seq<byte>, at: nat, extra: nat) returns (v: Scalar)
    requires extra <= 3 && at + extra < |b| && Utf8Char(b[at..at + extra + 1])
    ensures v == Decode8(b[at..at + extra + 1])
  {
    ghost var c := b[at..at + extra + 1];
    var ch := AddUp(b, at, extra);
    MarksTaken(c);
    return ch - OFFSETS[extra];
  }

  method AddUp(b: seq<byte>, at: nat, extra: nat) returns (ch: nat)
    requires extra <= 3 && at + extra < |b|
    ensures extra == 0 ==> ch == b[at]
    ensures extra == 1 ==> ch == b[at] as int * 64 + b[at + 1]
    ensures extra == 2 ==> ch == (b[at] as int * 64 + b[at + 1]) * 64 + b[at + 2]
    ensures extra == 3 ==> ch == ((b[at] as int * 64 + b[at + 1]) * 64 + b[at + 2]) * 64 + b[at + 3]
  {
    var p: nat := at;
    ch := 0;
    if extra == 3 {
      ch, p := (ch + b[p]) * 64, p + 1;
    }
    if extra >= 2 {
      ch, p := (ch + b[p]) * 64, p + 1;
    }
    if extra >= 1 {
      ch, p := (ch + b[p]) * 64, p + 1;
    }
    ch := ch + b[p];
  }

  /** The reader of sequences. */
  ghost predicate Describes(lossy: bool, next: Reader) {
    forall b: seq<byte> {:trigger NextSequence(lossy, b)} :: b != [] ==> next(b) == NextSequence(lossy, b)
  }

  /** Reads the sequence at `i`. */
  method FetchSequence(lossy: bool, b: seq<byte>, i: nat, ghost next: Reader) returns (c: NextByte)
    requires i < |b| && Describes(lossy, next)
    ensures c == next(b[i..]) && (!c.Bad? ==> Reads(next, b[i..]))
  {
    assert next(b[i..]) == NextSequence(lossy, b[i..]);
    var extra := Trailing(b[i]);
    if extra > |b| - i - 1 {
      return Bad;
    }
    assert b[i..][..extra + 1] == b[i..i + extra + 1];
    var legal := extra <= 3;
    if legal {
      legal := IsLegalUTF8(b, i, extra + 1);
    }
    if !legal {
      // a copyright sign of other encodings
      return if b[i] == 0xA9 || lossy then Lone else Bad;
    }
    var v := Gather(b, i, extra);
    return Good(v, extra + 1);
  }

  /** Stores one character or a pair; nothing if it does not fit. */
  method Store(c: NextByte, chars: array<unichar>, at: nat, maxCharLen: nat) returns (written: nat)
    requires !c.Bad? && maxCharLen <= chars.Length && (maxCharLen > 0 ==> at < maxCharLen)
    modifies chars
    ensures written == if maxCharLen > 0 && maxCharLen - at < |Units(c)| then 0 else |Units(c)|
    ensures if maxCharLen == 0 then chars[..] == old(chars[..])
            else Wrote(chars[..], old(chars[..]), at, if written == 0 then [] else Units(c))
  {
    if c.Lone? || c.v <= 0xFFFF {
      if maxCharLen > 0 {
        chars[at] := if c.Lone? then REPLACEMENT else c.v;
      }
      return 1;
    }
    if maxCharLen > 0 {
      if at + 2 > maxCharLen {
        return 0;
      }
      var v := c.v - 0x10000;
      chars[at] := v / 0x400 + 0xD800;
      chars[at + 1] := v % 0x400 + 0xDC00;
    }
    return 2;
  }

  /** Reads the sequence at `i` and stores it, if there is one and it fits. */
  method StoreAt(lossy: bool, b: seq<byte>, i: nat, chars: array<unichar>, at: nat, maxCharLen: nat,
                 ghost was: seq<unichar>, ghost done: seq<unichar>, ghost next: Reader)
    returns (size: nat, written: nat)
    requires i < |b| && maxCharLen <= chars.Length && (maxCharLen > 0 ==> at < maxCharLen) && |done| == at
    requires Written(chars[..], was, done, maxCharLen) && Describes(lossy, next)
    modifies chars
    ensures size == if Reads(next, b[i..]) then Size(next(b[i..])) else 0
    ensures size > 0 ==>
              var room, n := if maxCharLen == 0 then -1 else maxCharLen - at, |Units(next(b[i..]))|;
              written == if Fits(room, n) then n else 0
    ensures Written(chars[..], was, if size == 0 || written == 0 then done else done + Units(next(b[i..])), maxCharLen)
  {
    var c := FetchSequence(lossy, b, i, next);
    if c.Bad? {
      return 0, 0;
    }
    ghost var mid := chars[..];
    written := Store(c, chars, at, maxCharLen);
    size := Size(c);
    if maxCharLen > 0 {
      WroteMore(chars[..], mid, was, done, if written == 0 then [] else Units(c));
      assert done + [] == done;
    }
  }

  /** The same for decoding, with any reader. */
  ghost predicate RunSofar(next: Reader, b: seq<byte>, room: int, i: nat, done: seq<unichar>) {
    && i <= |b| && Fits(room, |done|)
    && Run(next, b, room) == Then(i, done, Run(next, b[i..], Less(room, |done|)))
  }

  lemma RunStart(next: Reader, b: seq<byte>, room: int)
    ensures RunSofar(next, b, room, 0, [])
  {
    assert b[0..] == b;
    var e := Run(next, b, room);
    assert [] + e.out == e.out;
  }

  lemma RunStep(next: Reader, b: seq<byte>, room: int, i: nat, done: seq<unichar>, c: NextByte)
    requires i < |b| && RunSofar(next, b, room, i, done) && Less(room, |done|) != 0 && c == next(b[i..]) &&
             Reads(next, b[i..])
    requires Fits(Less(room, |done|), |Units(c)|)
    ensures RunSofar(next, b, room, i + Size(c), done + Units(c))
  {
    DropTwice(b, i, Size(c));
    var rest := Run(next, b[i + Size(c)..], Less(Less(room, |done|), |Units(c)|));
    Associate(done, Units(c), rest.out);
  }

  /** A pair that does not fit. */
  lemma RunCut(next: Reader, b: seq<byte>, room: int, i: nat, done: seq<unichar>, c: NextByte)
    requires i < |b| && RunSofar(next, b, room, i, done) && Less(room, |done|) != 0 && c == next(b[i..]) &&
             Reads(next, b[i..])
    requires !Fits(Less(room, |done|), |Units(c)|)
    ensures Run(next, b, room) == Coded(i + Size(c), done)
  {
    assert done + [] == done;
  }

  lemma RunEnd(next: Reader, b: seq<byte>, room: int, i: nat, done: seq<unichar>)
    requires RunSofar(next, b, room, i, done) && (Less(room, |done|) == 0 || !Reads(next, b[i..]))
    ensures Run(next, b, room) == Coded(i, done)
  {
    assert done + [] == done;
  }

  /** Converts as much as fits. A limit of 0 is none: the units are counted and not stored. */
  method FromUTF8(lossy: bool, b: seq<byte>, chars: array<unichar>, maxCharLen: nat) returns (consumed: nat, used: nat)
    requires maxCharLen <= chars.Length
    modifies chars
    ensures var d := Decode(lossy, b, if maxCharLen == 0 then -1 else maxCharLen);
            && consumed == d.consumed && used == |d.out|
            && Written(chars[..], old(chars[..]), d.out, maxCharLen)
  {
    consumed, used := StoreAll(lossy, b, chars, maxCharLen, Sequences(lossy));
  }

  method StoreAll(lossy: bool, b: seq<byte>, chars: array<unichar>, maxCharLen: nat, ghost next: Reader)
    returns (consumed: nat, used: nat)
    requires maxCharLen <= chars.Length && Describes(lossy, next)
    modifies chars
    ensures var d := Run(next, b, if maxCharLen == 0 then -1 else maxCharLen);
            && consumed == d.consumed && used == |d.out|
            && Written(chars[..], old(chars[..]), d.out, maxCharLen)
  {
    ghost var room, was := if maxCharLen == 0 then -1 else maxCharLen, chars[..];
    ghost var done: seq<unichar> := [];
    consumed, used := 0, 0;
    RunStart(next, b, room);
    while consumed < |b| && (maxCharLen == 0 || used < maxCharLen)
      invariant RunSofar(next, b, room, consumed, done) && used == |done|
      invariant Written(chars[..], was, done, maxCharLen)
    {
      ghost var c := next(b[consumed..]);
      var size, written := StoreAt(lossy, b, consumed, chars, used, maxCharLen, was, done, next);
      if size == 0 {
        break;
      }
      if written == 0 {
        RunCut(next, b, room, consumed, done, c);
        return consumed + size, used;
      }
      RunStep(next, b, room, consumed, done, c);
      done := done + Units(c);
      consumed, used := consumed + size, used + written;
    }
    RunEnd(next, b, room, consumed, done);
  }

  // ----- Lengths -----

  method Add32(n: nat, w: nat, ghost total: nat) returns (r: nat)
    requires n == total % 0x1_0000_0000
    ensures r == (total + w) % 0x1_0000_0000
  {
    ghost var q := total / 0x1_0000_0000;
    assert total + w == (n + w) + 0x1_0000_0000 * q;
    return (n + w) % 0x1_0000_0000;
  }

  /** Counts the bytes in 32 bits, without being strict. */
  method ToUTF8Len(s: seq<unichar>) returns (n: nat)
    ensures n == |Encode(false, s, -1).out| % 0x1_0000_0000
  {
    n := CountBytes(s, Spellings(false));
  }

  method Measure(s: seq<unichar>, i: nat, ghost next: Speller) returns (units: nat, width: nat)
    requires i < |s| && Spelled(false, next)
    ensures Spells(next, s[i..], -1) && units == next(s[i..]).units && width == |next(s[i..]).bytes|
  {
    var c := Fetch(false, s, i);
    assert next(s[i..]) == Spelling(false, s[i..]);
    return c.units, Width(c.v);
  }

  method CountBytes(s: seq<unichar>, ghost next: Speller) returns (n: nat)
    requires Spelled(false, next)
    ensures n == |Spell(next, s, -1).out| % 0x1_0000_0000
  {
    n := 0;
    var i := 0;
    ghost var done: seq<byte> := [];
    SofarStart(next, s, -1);
    while i < |s|
      invariant Sofar(next, s, -1, i, done) && n == |done| % 0x1_0000_0000
    {
      ghost var p := next(s[i..]);
      var units, width := Measure(s, i, next);
      SofarStep(next, s, -1, i, done, p);
      n := Add32(n, width, |done|);
      done := done + p.bytes;
      i := i + units;
    }
    SofarEnd(next, s, -1, i, done);
  }

  /** Counts the units. */
  method FromUTF8Len(lossy: bool, b: seq<byte>) returns (n: nat)
    ensures n == |Decode(lossy, b, -1).out|
  {
    n := CountUnits(lossy, b, Sequences(lossy));
  }

  method CountUnits(lossy: bool, b: seq<byte>, ghost next: Reader) returns (n: nat)
    requires Describes(lossy, next)
    ensures n == |Run(next, b, -1).out|
  {
    n := 0;
    var i := 0;
    ghost var done: seq<unichar> := [];
    RunStart(next, b, -1);
    while i < |b|
      invariant RunSofar(next, b, -1, i, done) && n == |done|
    {
      var c := FetchSequence(lossy, b, i, next);
      if c.Bad? {
        break;
      }
      RunStep(next, b, -1, i, done, c);
      done := done + Units(c);
      n := n + if c.Lone? || c.v <= 0xFFFF then 1 else 2;
      i := i + Size(c);
    }
    RunEnd(next, b, -1, i, done);
  }

  /** The length that is announced. */
  ghost function Announced(s: seq<unichar>): nat {
    |Encode(false, s, -1).out| % TWO32
  }

  /**
   Into a buffer of the announced length everything is converted that can be, and the length is the
   one written if that is everything.
   */
  lemma LengthIsEnough(s: seq<unichar>)
    requires |Encode(false, s, -1).out| < TWO32
    ensures Encode(true, s, Announced(s)) == Encode(true, s, -1) &&
            Encode(false, s, Announced(s)) == Encode(false, s, -1)
    ensures Encode(true, s, -1).consumed == |s| ==> |Encode(true, s, -1).out| == Announced(s)
  {
    StrictIsNotLonger(s);
    EncodeEnough(true, s, Announced(s));
    EncodeEnough(false, s, Announced(s));
  }

  /**
   For text of any length: a buffer of the announced length takes all that a strict conversion gives
   exactly if the bytes that it would not write make up for the multiples of 2^32 that are missing.
   If it converts everything, the length is the one written exactly if that is less than 2^32.
   */
  lemma LengthIff(s: seq<unichar>)
    ensures var written, all := |Encode(true, s, -1).out|, |Encode(false, s, -1).out|;
            Encode(true, s, Announced(s)) == Encode(true, s, -1) <==> all / TWO32 * TWO32 <= all - written
    ensures Encode(true, s, -1).consumed == |s| ==>
              (|Encode(true, s, -1).out| == Announced(s) <==> |Encode(true, s, -1).out| < TWO32)
  {
    StrictIsNotLonger(s);
    EncodeConsumed(true, s, Announced(s));
    if |Encode(true, s, -1).out| <= Announced(s) {
      EncodeEnough(true, s, Announced(s));
    }
  }

  /** For 2^32 letters a length of 0 is announced. */
  lemma LengthWraps()
    ensures Announced(Letters(TWO32)) == 0 && |Encode(true, Letters(TWO32), -1).out| == TWO32
  {
    LettersOut(false, TWO32);
    LettersOut(true, TWO32);
  }
}
