/** Printing and parsing numbers in decimal, nine characters to a digit. */
module BigNumText {
  import opened BigNumDigits
  import opened BigNum

  predicate IsDigit(c: char) { '0' <= c <= '9' }

  ghost predicate AllDigits(w: string) {
    forall i | 0 <= i < |w| :: IsDigit(w[i])
  }

  function DigitValue(c: char): nat
    requires IsDigit(c)
  {
    c as int - '0' as int
  }

  function DigitChar(n: nat): (c: char)
    requires n < 10
    ensures IsDigit(c) && DigitValue(c) == n
  {
    ('0' as int + n) as char
  }

  lemma TenDigits(i: nat)
    requires i < 10
    ensures IsDigit("0123456789"[i]) && DigitValue("0123456789"[i]) == i
  {
  }

  /** The number that a string of decimal digits stands for. */
  function Atol(w: string): nat
    requires AllDigits(w)
  {
    if w == [] then 0 else Atol(w[..|w| - 1]) * 10 + DigitValue(w[|w| - 1])
  }

  ghost function Ten(k: nat): nat {
    if k == 0 then 1 else 10 * Ten(k - 1)
  }

  lemma TenNine()
    ensures Ten(9) == LIMIT
  {
    assert Ten(3) == 1000;
    assert Ten(6) == 1000 * Ten(3);
    assert Ten(9) == 1000 * Ten(6);
  }

  lemma {:induction false} AtolJoin(u: string, w: string)
    requires AllDigits(u) && AllDigits(w)
    ensures AllDigits(u + w) && Atol(u + w) == Atol(u) * Ten(|w|) + Atol(w)
  {
    if w == [] {
      assert u + w == u;
    } else {
      var v := w[..|w| - 1];
      AtolJoin(u, v);
      assert (u + w)[..|u + w| - 1] == u + v;
      TimesTen(Atol(u), Ten(|v|), Atol(v), DigitValue(w[|w| - 1]));
    }
  }

  lemma TimesTen(x: nat, t: nat, y: nat, d: nat)
    ensures (x * t + y) * 10 + d == x * (10 * t) + (y * 10 + d)
  {
  }

  lemma {:induction false} AtolBound(w: string)
    requires AllDigits(w)
    ensures Atol(w) < Ten(|w|)
  {
    if w != [] {
      AtolBound(w[..|w| - 1]);
    }
  }

  // ----- Leading zeros -----

  function Strip(w: string): (r: string)
    ensures |r| <= |w| && (r == [] || r[0] != '0')
  {
    if w != [] && w[0] == '0' then Strip(w[1..]) else w
  }

  lemma {:induction false} StripKeeps(w: string)
    requires AllDigits(w)
    ensures AllDigits(Strip(w)) && Atol(Strip(w)) == Atol(w)
  {
    if w != [] && w[0] == '0' {
      StripKeeps(w[1..]);
      assert AllDigits("0") && Atol("0") == 0 by {
        assert "0"[..0] == "";
      }
      AtolJoin("0", w[1..]);
      assert w == "0" + w[1..];
    }
  }

  ghost function Zeros(n: nat): string { seq(n, i => '0') }

  lemma {:induction false} StripZeros(n: nat, w: string)
    ensures Strip(Zeros(n) + w) == Strip(w)
  {
    if n == 0 {
      assert Zeros(0) + w == w;
    } else {
      assert (Zeros(n) + w)[1..] == Zeros(n - 1) + w;
      StripZeros(n - 1, w);
    }
  }

  // ----- Digits to text -----

  /** A number in `k` characters. */
  function Padded(n: nat, k: nat): (w: string)
    ensures |w| == k
  {
    if k == 0 then "" else Padded(n / 10, k - 1) + [DigitChar(n % 10)]
  }

  lemma {:induction false} PaddedInverts(n: nat, k: nat)
    requires n < Ten(k)
    ensures AllDigits(Padded(n, k)) && Atol(Padded(n, k)) == n
  {
    if k > 0 {
      PaddedInverts(n / 10, k - 1);
    }
  }

  /** The digits from the highest to the lowest, nine characters each. */
  function Text(d: seq<nat>): (w: string)
    ensures |w| == 9 * |d|
  {
    if d == [] then "" else Text(d[1..]) + Padded(d[0], 9)
  }

  lemma {:induction false} TextInverts(d: seq<nat>)
    requires Canonical(d)
    ensures AllDigits(Text(d)) && Atol(Text(d)) == Value(d)
  {
    if d != [] {
      TextInverts(d[1..]);
      PaddedNine(d[0]);
      JoinNine(Text(d[1..]), Padded(d[0], 9));
    }
  }

  lemma PaddedNine(n: nat)
    requires n < LIMIT
    ensures AllDigits(Padded(n, 9)) && Atol(Padded(n, 9)) == n
  {
    TenNine();
    PaddedInverts(n, 9);
  }

  lemma JoinNine(u: string, w: string)
    requires AllDigits(u) && AllDigits(w) && |w| == 9
    ensures AllDigits(u + w) && Atol(u + w) == LIMIT * Atol(u) + Atol(w)
  {
    TenNine();
    AtolJoin(u, w);
  }

  // ----- Text to digits -----

  predicate IsSpace(c: char) {
    c == ' ' || 9 <= c as int <= 13
  }

  function SkipSpaces(w: string): (r: string)
    ensures |r| <= |w|
  {
    if w != [] && IsSpace(w[0]) then SkipSpaces(w[1..]) else w
  }

  /** The digits that a string begins with. */
  function Leading(w: string): (r: string)
    ensures AllDigits(r)
  {
    if w == [] || !IsDigit(w[0]) then "" else [w[0]] + Leading(w[1..])
  }

  /** What C makes of any text: blanks, a sign, and digits as far as they go, within the range of a long. */
  function Long(w: string): int {
    var t := SkipSpaces(w);
    var n: int := Atol(Leading(Body(t)));
    if Starts(t, '-') then if n <= 0x8000_0000_0000_0000 then -n else -0x8000_0000_0000_0000
    else if n <= 0x7FFF_FFFF_FFFF_FFFF then n else 0x7FFF_FFFF_FFFF_FFFF
  }

  lemma {:induction false} SpacesSkipped(spaces: string, w: string)
    requires (forall i | 0 <= i < |spaces| :: IsSpace(spaces[i])) && (w == [] || !IsSpace(w[0]))
    ensures SkipSpaces(spaces + w) == w
  {
    if spaces == [] {
      assert spaces + w == w;
    } else {
      assert (spaces + w)[1..] == spaces[1..] + w;
      SpacesSkipped(spaces[1..], w);
    }
  }

  lemma {:induction false} LeadingPart(digits: string, rest: string)
    requires AllDigits(digits) && (rest == [] || !IsDigit(rest[0]))
    ensures Leading(digits + rest) == digits
  {
    if digits == [] {
      assert digits + rest == rest;
    } else {
      assert (digits + rest)[1..] == digits[1..] + rest;
      LeadingPart(digits[1..], rest);
    }
  }

  /** Blanks, then digits with or without a sign, then anything else: the number, or the end of the range it is past. */
  lemma LongMeans(spaces: string, sign: string, digits: string, rest: string)
    requires (forall i | 0 <= i < |spaces| :: spaces[i] == ' ' || spaces[i] == '\t' || spaces[i] == '\n')
    requires sign in {"", "+", "-"} && digits != [] && AllDigits(digits) && (rest == [] || !IsDigit(rest[0]))
    ensures var n: int := Atol(digits);
            Long(spaces + (sign + (digits + rest)))
            == if sign == "-" then (if n <= 0x8000_0000_0000_0000 then -n else -0x8000_0000_0000_0000)
               else if n <= 0x7FFF_FFFF_FFFF_FFFF then n else 0x7FFF_FFFF_FFFF_FFFF
  {
    var t := sign + (digits + rest);
    assert digits[0] == (digits + rest)[0] && IsDigit(digits[0]);
    SpacesSkipped(spaces, t);
    assert Body(t) == digits + rest;
    LeadingPart(digits, rest);
  }

  /** A digit has 32 bits. */
  function Digit(w: string): nat {
    Low32(Long(w))
  }

  function Low32(n: int): nat {
    n % 0x1_0000_0000
  }

  lemma SmallLow32(n: nat)
    requires n < LIMIT
    ensures Low32(n) == n
  {
  }

  /** Nine characters at a time from the right, the rest for the last digit. */
  function Chunks(w: string, n: nat): (d: seq<nat>)
    requires n > 0
    ensures |d| == n
  {
    if n == 1 || |w| <= 9 then [Digit(w)] + seq(n - 1, i => 0)
    else [Digit(w[|w| - 9..])] + Chunks(w[..|w| - 9], n - 1)
  }

  lemma {:induction false} LeadingAll(w: string)
    requires AllDigits(w)
    ensures Leading(w) == w
  {
    if w != [] {
      LeadingAll(w[1..]);
      assert w == [w[0]] + w[1..];
    }
  }

  lemma NothingSkipped(w: string)
    requires w == [] || IsDigit(w[0])
    ensures SkipSpaces(w) == w && Body(w) == w && !Starts(w, '-')
  {
  }

  lemma LongOfDigits(w: string, n: nat)
    requires AllDigits(w) && n == Atol(w) < LIMIT
    ensures Long(w) == n
  {
    NothingSkipped(w);
    LeadingAll(w);
  }

  lemma DigitOfNine(w: string)
    requires AllDigits(w) && |w| <= 9
    ensures Digit(w) == Atol(w) < LIMIT
  {
    AtolNine(w);
    DigitOfSmall(w, Atol(w));
  }

  lemma DigitOfSmall(w: string, n: nat)
    requires AllDigits(w) && n == Atol(w) < LIMIT
    ensures Digit(w) == n
  {
    LongOfDigits(w, n);
    SmallLow32(n);
  }

  lemma ValueCons(d: seq<nat>, x: nat, rest: seq<nat>)
    requires d == [x] + rest && x < LIMIT && Canonical(rest)
    ensures Canonical(d) && Value(d) == x + LIMIT * Value(rest)
  {
    assert d[1..] == rest;
  }

  lemma LastChunk(w: string, n: nat)
    requires AllDigits(w) && n > 0 && |w| <= 9
    ensures Canonical(Chunks(w, n)) && Value(Chunks(w, n)) == Atol(w)
  {
    var zeros := seq(n - 1, i => 0);
    DigitOfNine(w);
    ZeroValue(zeros);
    ValueCons(Chunks(w, n), Atol(w), zeros);
  }

  lemma ChunksSplit(u: string, v: string, n: nat)
    requires n > 1 && u != [] && |v| == 9
    ensures Chunks(u + v, n) == [Digit(v)] + Chunks(u, n - 1)
  {
    var w := u + v;
    assert w[|w| - 9..] == v && w[..|w| - 9] == u;
  }

  lemma NextChunk(u: string, v: string, d: seq<nat>, more: seq<nat>)
    requires AllDigits(u) && AllDigits(v) && |v| == 9 && d == [Digit(v)] + more && Canonical(more) &&
             Value(more) == Atol(u)
    ensures AllDigits(u + v) && Canonical(d) && Value(d) == Atol(u + v)
  {
    DigitOfNine(v);
    JoinNine(u, v);
    ValueCons(d, Atol(v), more);
  }

  lemma {:induction false} ChunksValue(w: string, n: nat)
    requires AllDigits(w) && n > 0 && |w| <= 9 * n
    ensures Canonical(Chunks(w, n)) && Value(Chunks(w, n)) == Atol(w)
  {
    if |w| <= 9 {
      LastChunk(w, n);
    } else {
      var u, v := w[..|w| - 9], w[|w| - 9..];
      assert w == u + v;
      ChunksValue(u, n - 1);
      ChunksSplit(u, v, n);
      NextChunk(u, v, Chunks(w, n), Chunks(u, n - 1));
    }
  }

  /** A digit is right exactly if its number has 32 bits. */
  lemma DigitIff(w: string)
    requires AllDigits(w)
    ensures Digit(w) == Atol(w) <==> Atol(w) < 0x1_0000_0000
  {
    NothingSkipped(w);
    LeadingAll(w);
    LowIff(Atol(w), Long(w));
  }

  lemma LowIff(n: nat, long: int)
    requires long == if n <= 0x7FFF_FFFF_FFFF_FFFF then n else 0x7FFF_FFFF_FFFF_FFFF
    ensures Low32(long) == n <==> n < 0x1_0000_0000
  {
  }

  /** What is left of the text for the last of `n` digits. */
  ghost function Top(w: string, n: nat): string
    requires n > 0
  {
    if |w| <= 9 * (n - 1) then "" else w[..|w| - 9 * (n - 1)]
  }

  lemma TopDigits(w: string, n: nat)
    requires n > 0 && AllDigits(w)
    ensures AllDigits(Top(w, n))
  {
  }

  lemma TopOfShorter(u: string, v: string, n: nat)
    requires n > 1 && |v| == 9
    ensures Top(u + v, n) == Top(u, n - 1)
  {
    var w := u + v;
    if |w| > 9 * (n - 1) {
      assert w[..|w| - 9 * (n - 1)] == u[..|u| - 9 * (n - 2)];
    }
  }

  /** One chunk more leaves the value as right or wrong as it was. */
  lemma NextChunkIff(u: string, v: string, d: seq<nat>, more: seq<nat>)
    requires AllDigits(u) && AllDigits(v) && |v| == 9 && d == [Digit(v)] + more
    ensures AllDigits(u + v) && (Value(d) == Atol(u + v) <==> Value(more) == Atol(u))
  {
    DigitOfNine(v);
    JoinNine(u, v);
    assert d[1..] == more;
  }

  lemma OneChunkIff(w: string)
    requires AllDigits(w)
    ensures Value(Chunks(w, 1)) == Atol(w) <==> Atol(w) < 0x1_0000_0000
  {
    DigitIff(w);
    var d := Chunks(w, 1);
    assert d == [Digit(w)] && d[1..] == [];
  }

  lemma FewIsRight(w: string, n: nat)
    requires AllDigits(w) && n > 0 && |w| <= 9
    ensures Value(Chunks(w, n)) == Atol(w)
    ensures AllDigits(Top(w, n)) && Atol(Top(w, n)) < 0x1_0000_0000
  {
    LastChunk(w, n);
    AtolNine(w);
    assert n == 1 ==> w[..|w|] == w;
  }

  ghost predicate RightIff(w: string, n: nat)
    requires n > 0 && AllDigits(w) && AllDigits(Top(w, n))
  {
    Value(Chunks(w, n)) == Atol(w) <==> Atol(Top(w, n)) < 0x1_0000_0000
  }

  lemma RightNext(u: string, v: string, n: nat)
    requires n > 1 && u != [] && |v| == 9 && AllDigits(u) && AllDigits(v) && AllDigits(Top(u, n - 1)) &&
             RightIff(u, n - 1)
    ensures AllDigits(u + v) && AllDigits(Top(u + v, n)) && RightIff(u + v, n)
  {
    ChunksSplit(u, v, n);
    NextChunkIff(u, v, Chunks(u + v, n), Chunks(u, n - 1));
    TopOfShorter(u, v, n);
  }

  /** The value is right exactly if the last digit, which gets all the rest, has 32 bits. */
  lemma {:induction false} ChunksValueIff(w: string, n: nat)
    requires AllDigits(w) && n > 0
    ensures AllDigits(Top(w, n)) && RightIff(w, n)
  {
    TopDigits(w, n);
    if |w| <= 9 {
      FewIsRight(w, n);
    } else if n == 1 {
      OneChunkIff(w);
      assert Top(w, 1) == w;
    } else {
      var u, v := w[..|w| - 9], w[|w| - 9..];
      assert w == u + v;
      ChunksValueIff(u, n - 1);
      RightNext(u, v, n);
    }
  }

  lemma NextRangeIff(v: string, d: seq<nat>, more: seq<nat>)
    requires AllDigits(v) && |v| == 9 && d == [Digit(v)] + more
    ensures Canonical(d) <==> Canonical(more)
  {
    DigitOfNine(v);
    assert forall i | 0 <= i < |more| :: d[i + 1] == more[i];
  }

  lemma OneRangeIff(w: string)
    ensures Canonical(Chunks(w, 1)) <==> Digit(Top(w, 1)) < LIMIT
  {
    assert Top(w, 1) == w;
    var d := Chunks(w, 1);
    assert d == [Digit(w)] && d[0] == Digit(w);
  }

  lemma FewInRange(w: string, n: nat)
    requires AllDigits(w) && n > 1 && |w| <= 9
    ensures Canonical(Chunks(w, n)) && Digit(Top(w, n)) < LIMIT
  {
    LastChunk(w, n);
    DigitOfNine("");
  }

  /** The digits are in range exactly if the last one, which gets all the rest, is. */
  lemma {:induction false} ChunksRangeIff(w: string, n: nat)
    requires AllDigits(w) && n > 0
    ensures Canonical(Chunks(w, n)) <==> Digit(Top(w, n)) < LIMIT
  {
    if n == 1 {
      OneRangeIff(w);
    } else if |w| <= 9 {
      FewInRange(w, n);
    } else {
      var u, v := w[..|w| - 9], w[|w| - 9..];
      assert w == u + v;
      ChunksRangeIff(u, n - 1);
      ChunksSplit(u, v, n);
      NextRangeIff(v, Chunks(w, n), Chunks(u, n - 1));
      TopOfShorter(u, v, n);
    }
  }

  lemma {:induction false} PowerIsTen(n: nat)
    ensures Power(n) == Ten(9 * n)
  {
    if n > 0 {
      PowerIsTen(n - 1);
      TenNine();
      TenSplit(9, 9 * (n - 1));
    }
  }

  lemma {:induction false} TenSplit(i: nat, j: nat)
    ensures Ten(i + j) == Ten(i) * Ten(j)
  {
    if i > 0 {
      TenSplit(i - 1, j);
    }
  }

  /** A string of digits that does not begin with a zero is worth at least the power of ten of its length. */
  lemma {:induction false} AtolAtLeast(w: string)
    requires AllDigits(w) && w != [] && w[0] != '0'
    ensures Ten(|w| - 1) <= Atol(w)
  {
    var v := w[..|w| - 1];
    if v == [] {
      assert Atol(v) == 0 && Atol(w) == DigitValue(w[0]);
    } else {
      AtolAtLeast(v);
    }
  }

  /** More than 45 significant digits do not fit five digits in range. */
  lemma TooLong(w: string, d: seq<nat>)
    requires AllDigits(w) && |w| > 45 && w[0] != '0' && |d| == 5 && Canonical(d)
    ensures Value(d) < Atol(w)
  {
    ValueBound(d);
    PowerIsTen(5);
    AtolAtLeast(w);
    TenGrows(45, |w| - 1);
  }

  lemma AtolNine(w: string)
    requires AllDigits(w) && |w| <= 9
    ensures Atol(w) < LIMIT
  {
    TenNine();
    AtolBound(w);
    TenGrows(|w|, 9);
  }

  lemma {:induction false} TenGrows(i: nat, j: nat)
    requires i <= j
    ensures Ten(i) <= Ten(j)
    decreases j
  {
    if i < j {
      TenGrows(i, j - 1);
    }
  }

  // ----- Signs -----

  function SignText(sign: int, leadingPlus: bool): string {
    if sign < 0 then "-" else if leadingPlus then "+" else ""
  }

  predicate Starts(s: string, c: char) {
    s != [] && s[0] == c
  }

  /** What follows the sign. */
  function Body(s: string): string {
    if Starts(s, '-') || Starts(s, '+') then s[1..] else s
  }

  /** An optional sign and decimal digits, at most 45 of them significant. */
  ghost predicate Numeral(s: string) {
    AllDigits(Body(s)) && |Strip(Body(s))| <= 45
  }

  lemma SignedText(sign: int, leadingPlus: bool, w: string)
    requires w != [] && AllDigits(w)
    ensures var s := SignText(sign, leadingPlus) + w;
            Body(s) == w && (Starts(s, '-') <==> sign < 0) && (Starts(s, '+') <==> sign >= 0 && leadingPlus)
  {
    assert IsDigit(w[0]);
  }

  // ----- Printing -----

  /** The text in a buffer of `buflen` characters that has room for everything and a final NUL. */
  method ToCString(v: Number, leadingZeros: bool, leadingPlus: bool, buflen: nat) returns (s: string)
    requires v.Valid() && v.InRange() && buflen >= 47
    ensures Numeral(s) && Atol(Body(s)) == Value(v.digits[..]) && |s| < buflen
    ensures (Starts(s, '-') <==> v.sign < 0) && (Starts(s, '+') <==> v.sign >= 0 && leadingPlus)
    ensures s != [] && var n: int := Atol(Body(s)); v.Worth() == if s[0] == '-' then -n else n
    ensures if leadingZeros then |s| == buflen - 1 else Body(s) == "0" || !Starts(Body(s), '0')
  {
    var front, tmp := SignText(v.sign, leadingPlus), Text(v.digits[..]);
    TextInverts(v.digits[..]);
    var w;
    if leadingZeros {
      w := seq(buflen - |front| - 46, i => '0') + tmp;
      StripZeros(buflen - |front| - 46, tmp);
      ZerosKeep(buflen - |front| - 46, tmp);
    } else {
      w := DropZeros(tmp);
    }
    SignedText(v.sign, leadingPlus, w);
    s := front + w;
  }

  /** Without leading zeros, but with one zero at least. */
  method DropZeros(tmp: string) returns (w: string)
    requires AllDigits(tmp)
    ensures w == if Strip(tmp) == "" then "0" else Strip(tmp)
    ensures AllDigits(w) && Atol(w) == Atol(tmp) && |Strip(w)| <= |tmp|
  {
    var start := 0;
    while start < |tmp| && tmp[start] == '0'
      invariant 0 <= start <= |tmp| && Strip(tmp) == Strip(tmp[start..])
    {
      assert tmp[start..][1..] == tmp[start + 1..];
      start := start + 1;
    }
    StripKeeps(tmp);
    LoneZero();
    w := if start == |tmp| then "0" else tmp[start..];
  }

  lemma LoneZero()
    ensures AllDigits("0") && Atol("0") == 0 && Strip("0") == "" && Atol("") == 0
  {
    assert "0"[..0] == "" && "0"[1..] == "";
  }

  lemma ZerosKeep(n: nat, w: string)
    requires AllDigits(w)
    ensures AllDigits(Zeros(n) + w) && Atol(Zeros(n) + w) == Atol(w)
  {
    StripZeros(n, w);
    StripKeeps(Zeros(n) + w);
    StripKeeps(w);
  }

  // ----- Parsing -----

  /**
   Any text is taken apart from the right. Its number comes out exactly if what is left for the last
   digit has 32 bits, the digits are in range exactly if that digit is, and both hold exactly if no
   more than 45 digits are significant.
   */
  method FromCString(r: Number, s: string)
    requires r.Valid()
    modifies r, r.digits
    ensures r.Valid() && r.sign == (if Starts(s, '-') then -1 else 0) && r.digits[..] == Chunks(Strip(Body(s)), 5)
    ensures AllDigits(Body(s)) ==> (r.InRange() && Value(r.digits[..]) == Atol(Body(s)) <==> Numeral(s))
    ensures AllDigits(Body(s)) ==> (r.InRange() <==> Digit(Top(Strip(Body(s)), 5)) < LIMIT)
    ensures AllDigits(Body(s)) ==> AllDigits(Top(Strip(Body(s)), 5))
    ensures AllDigits(Body(s)) ==>
              (Value(r.digits[..]) == Atol(Body(s)) <==> Atol(Top(Strip(Body(s)), 5)) < 0x1_0000_0000)
  {
    r.sign := 0;
    var working := 0;
    if Starts(s, '-') {
      r.sign := -1;
      working := 1;
    } else if Starts(s, '+') {
      working := 1;
    }
    ghost var body := Body(s);
    assert s[working..] == body;
    while working < |s| && s[working] == '0'
      invariant 0 <= working <= |s| && Strip(body) == Strip(s[working..])
    {
      assert s[working..][1..] == s[working + 1..];
      working := working + 1;
    }
    var w := s[working..];
    assert Strip(w) == w;
    FillDigits(r, w);
    if AllDigits(body) {
      StripKeeps(body);
      NumeralIff(w, r.digits[..]);
      ChunksValueIff(w, 5);
      ChunksRangeIff(w, 5);
    }
  }

  lemma NumeralIff(w: string, d: seq<nat>)
    requires AllDigits(w) && Strip(w) == w && d == Chunks(w, 5)
    ensures Canonical(d) && Value(d) == Atol(w) <==> |w| <= 45
  {
    if |w| <= 45 {
      ChunksValue(w, 5);
    } else if Canonical(d) {
      TooLong(w, d);
    }
  }

  lemma NineZeros()
    ensures AllDigits(Zeros(9)) && Digit(Zeros(9)) == 0
  {
    LoneZero();
    assert Zeros(9) + "" == Zeros(9);
    ZerosKeep(9, "");
    DigitOfNine(Zeros(9));
  }

  lemma FiveDigits(w: string, n: nat)
    requires |w| == 5 && AllDigits(w)
    requires n == (((DigitValue(w[0]) * 10 + DigitValue(w[1])) * 10 + DigitValue(w[2])) * 10 + DigitValue(w[3])) * 10
             + DigitValue(w[4])
    ensures Atol(w) == n
  {
    assert w[..4][..3] == w[..3] && w[..3][..2] == w[..2] && w[..2][..1] == w[..1] && w[..1][..0] == "";
    assert Atol(w[..1]) == DigitValue(w[0]);
    assert Atol(w[..2]) == Atol(w[..1]) * 10 + DigitValue(w[1]);
    assert Atol(w[..3]) == Atol(w[..2]) * 10 + DigitValue(w[2]);
    assert Atol(w[..4]) == Atol(w[..3]) * 10 + DigitValue(w[3]);
  }

  lemma TwoTo32()
    ensures AllDigits("4294967296") && Atol("4294967296") == 0x1_0000_0000
  {
    FiveDigits("42949", 42949);
    FiveDigits("67296", 67296);
    AtolJoin("42949", "67296");
    assert Ten(5) == 100_000 by {
      assert Ten(3) == 1000;
    }
    assert "4294967296" == "42949" + "67296";
  }

  /** Nine zeros at the end are a digit of zero. */
  lemma ZeroChunk(u: string, w: string, n: nat, more: seq<nat>)
    requires u != [] && w == u + Zeros(9) && n > 1 && more == Chunks(u, n - 1)
    ensures Chunks(w, n) == [0] + more
  {
    NineZeros();
    ChunksSplit(u, Zeros(9), n);
  }

  lemma MoreZeros(t: string, i: nat, j: nat)
    ensures t + Zeros(i + j) == t + Zeros(i) + Zeros(j)
  {
  }

  lemma FourZeroChunks(t: string, a: string, b: string, c: string, w: string, d: nat)
    requires t != [] && Chunks(t, 1) == [d]
    requires a == t + Zeros(9) && b == a + Zeros(9) && c == b + Zeros(9) && w == c + Zeros(9)
    ensures Chunks(w, 5) == [0, 0, 0, 0, d]
  {
    ZeroChunk(t, a, 2, [d]);
    ZeroChunk(a, b, 3, [0, d]);
    ZeroChunk(b, c, 4, [0, 0, d]);
    ZeroChunk(c, w, 5, [0, 0, 0, d]);
  }

  lemma Significant(w: string)
    requires w != [] && AllDigits(w) && w[0] != '0'
    ensures Strip(w) == w && Atol(w) > 0
  {
    AtolAtLeast(w);
    TenGrows(0, |w| - 1);
  }

  /** 2^32 and 36 zeros: the text has 46 significant digits and is read as zero. */
  lemma ValueLost(t: string, w: string)
    requires t == "4294967296" && w == t + Zeros(36)
    ensures AllDigits(w) && Strip(w) == w && |w| == 46 && Atol(w) > 0
    ensures Chunks(w, 5) == [0, 0, 0, 0, 0]
  {
    TwoTo32();
    LastIsZero(t);
    MoreZeros(t, 9, 9);
    MoreZeros(t, 18, 9);
    MoreZeros(t, 27, 9);
    FourZeroChunks(t, t + Zeros(9), t + Zeros(18), t + Zeros(27), w, 0);
    Significant(w);
  }

  lemma LastIsZero(t: string)
    requires AllDigits(t) && Atol(t) == 0x1_0000_0000
    ensures Chunks(t, 1) == [0]
  {
    NothingSkipped(t);
    LeadingAll(t);
    assert Long(t) == 0x1_0000_0000;
  }

  /** After `k` chunks: those that are done, and what the rest will give. */
  ghost predicate Filling(w: string, d: seq<nat>, length: nat, k: nat) {
    && |d| == 5 && k < 5 && length <= |w| && (forall i | k <= i < 5 :: d[i] == 0)
    && Chunks(w, 5) == d[..k] + Chunks(w[..length], 5 - k)
  }

  lemma FillingNext(w: string, d: seq<nat>, length: nat, k: nat)
    requires Filling(w, d, length, k) && k + 1 < 5 && 9 < length
    ensures Filling(w, d[k := Digit(w[length - 9..length])], length - 9, k + 1)
  {
    var rest, n := w[..length], Digit(w[length - 9..length]);
    assert rest[length - 9..] == w[length - 9..length] && rest[..length - 9] == w[..length - 9];
    var more := Chunks(w[..length - 9], 5 - k - 1);
    assert Chunks(rest, 5 - k) == [n] + more;
    assert d[k := n][..k + 1] == d[..k] + [n];
    assert d[..k] + ([n] + more) == d[..k] + [n] + more;
  }

  lemma FillingEnd(w: string, d: seq<nat>, length: nat, k: nat)
    requires Filling(w, d, length, k) && (k + 1 == 5 || length <= 9)
    ensures d[k := Digit(w[..length])] == Chunks(w, 5)
  {
    var n := Digit(w[..length]);
    assert Chunks(w[..length], 5 - k) == [n] + seq(5 - k - 1, i => 0);
  }

  method FillDigits(r: Number, w: string)
    requires r.Valid()
    modifies r.digits
    ensures r.digits[..] == Chunks(w, 5)
  {
    forall i | 0 <= i < 5 {
      r.digits[i] := 0;
    }
    var length, k := |w|, 0;
    assert w[..length] == w && r.digits[..][..0] + Chunks(w, 5) == Chunks(w, 5);
    while k + 1 < 5 && 9 < length
      invariant Filling(w, r.digits[..], length, k)
    {
      FillingNext(w, r.digits[..], length, k);
      PutDigit(r, k, Digit(w[length - 9..length]));
      length, k := length - 9, k + 1;
    }
    FillingEnd(w, r.digits[..], length, k);
    PutDigit(r, k, Digit(w[..length]));
  }

  method PutDigit(r: Number, k: nat, digit: nat)
    requires r.Valid() && k < 5
    modifies r.digits
    ensures r.digits[..] == old(r.digits[..])[k := digit]
  {
    r.digits[k] := digit;
  }

  /** Printing and then parsing gives the same number, a negative zero included. */
  method PrintAndParse(v: Number, leadingZeros: bool, leadingPlus: bool, buflen: nat) returns (r: Number)
    requires v.Valid() && v.InRange() && buflen >= 47
    ensures r.Valid() && r.sign == v.sign && r.digits[..] == v.digits[..]
  {
    var s := ToCString(v, leadingZeros, leadingPlus, buflen);
    r := new Number();
    FromCString(r, s);
    ValueInjective(r.digits[..], v.digits[..]);
  }
}
