/**
 The option ROM's number printers. What they print is stated by reading it back: the output is the
 one canonical string with the right value.
 */
module StringFormat {
  import opened Words

  const ZERO: byte := 0x30
  const MINUS: byte := 0x2D

  // ---------------------------------------------------------------- decimal

  const DIVISORS: seq<nat> :=
    [1000000000, 100000000, 10000000, 1000000, 100000, 10000, 1000, 100, 10]

  function ParseDec(s: seq<byte>): int {
    if s == [] then 0 else ParseDec(s[..|s| - 1]) * 10 + s[|s| - 1] as int - 0x30
  }

  predicate AllDigits(s: seq<byte>) {
    forall i :: 0 <= i < |s| ==> 0x30 <= s[i] <= 0x39
  }

  /** A number as it is written: some digits, and no leading zero. */
  predicate Canonical(s: seq<byte>) {
    |s| > 0 && AllDigits(s) && (|s| > 1 ==> s[0] != ZERO)
  }

  function Pow10(k: nat): nat {
    if k == 0 then 1 else 10 * Pow10(k - 1)
  }

  lemma {:induction false} ParseBounds(s: seq<byte>)
    requires AllDigits(s)
    ensures 0 <= ParseDec(s) < Pow10(|s|)
    ensures s != [] && s[0] != ZERO ==> Pow10(|s| - 1) <= ParseDec(s)
  {
    if s != [] {
      var init := s[..|s| - 1];
      ParseBounds(init);
      if |s| > 1 {
        assert init[0] == s[0];
      } else {
        assert ParseDec(init) == 0;
      }
    }
  }

  /** A longer canonical string has a value of at least ten, a shorter one less. */
  lemma LongIsTen(s: seq<byte>)
    requires Canonical(s)
    ensures |s| > 1 <==> ParseDec(s) >= 10
  {
    var init := s[..|s| - 1];
    ParseBounds(init);
    if |s| > 1 {
      assert init[0] == s[0];
    }
  }

  /** A number is written in one way only. */
  lemma {:induction false} CanonicalUnique(s: seq<byte>, t: seq<byte>)
    requires Canonical(s) && Canonical(t) && ParseDec(s) == ParseDec(t)
    ensures s == t
  {
    var s', t' := s[..|s| - 1], t[..|t| - 1];
    LongIsTen(s);
    LongIsTen(t);
    ParseBounds(s');
    ParseBounds(t');
    assert ParseDec(s') == ParseDec(t') && s[|s| - 1] == t[|t| - 1];
    if |s| > 1 {
      assert s'[0] == s[0] && t'[0] == t[0];
      CanonicalUnique(s', t');
    }
    assert s == s' + [s[|s| - 1]] && t == t' + [t[|t| - 1]];
  }

  lemma ParseAppend(s: seq<byte>, b: byte)
    ensures ParseDec(s + [b]) == ParseDec(s) * 10 + b as int - 0x30
  {
    assert (s + [b])[..|s|] == s;
  }

  /** Digits are the characters '0' to '9', the last one counting ones and the others tens of what
      they make up. */
  lemma DigitsExactly(s: seq<byte>, d: nat, b: byte)
    requires Canonical(s) && d < 10 && b == ("0123456789"[d]) as int
    ensures ParseDec(s + [b]) == 10 * ParseDec(s) + d
    ensures |s| == 1 && ParseDec(s) == d ==> s == [b]
  {
    assert b == 0x30 + d;
    ParseAppend(s, b);
    assert s[..0] == [];
  }

  /** A division by a table entry gives a single digit, not zero if the entry fits. */
  lemma QuotientIsDigit(rest: nat, d: nat)
    requires d > 0 && rest < 10 * d
    ensures rest == rest / d * d + rest % d && rest % d < d
    ensures rest / d < 10 && (rest >= d ==> rest / d >= 1)
  {
    var q, r := rest / d, rest % d;
    assert rest == q * d + r;
    assert q >= 10 ==> q * d >= 10 * d;
  }

  /** What has been printed so far, times the weight of what is left, plus the rest, is the number. */
  ghost predicate Halfway(n: nat, out: seq<byte>, rest: nat, weight: nat) {
    && AllDigits(out) && (out != [] ==> out[0] != ZERO)
    && rest < weight && ParseDec(out) >= 0 && ParseDec(out) * weight + rest == n
  }

  /** That digit moves from the rest to what is printed. */
  lemma HalfwayStep(n: nat, out: seq<byte>, rest: nat, d: nat, q: nat, r: nat)
    requires Halfway(n, out, rest, 10 * d) && rest == q * d + r && r < d && q < 10
    requires out == [] ==> q >= 1
    ensures Halfway(n, out + [0x30 + q], r, d)
  {
    ParseAppend(out, 0x30 + q);
    var p := ParseDec(out);
    assert (p * 10 + q) * d == p * (10 * d) + q * d;
  }

  lemma TableIsPowers(i: nat)
    requires i < 9
    ensures DIVISORS[i] == Pow10(9 - i) > 0 && 10 * DIVISORS[i] == Pow10(10 - i)
  {
    PowersOfTen();
  }

  lemma PowersOfTen()
    ensures [Pow10(0), Pow10(1), Pow10(2), Pow10(3), Pow10(4)] == [1, 10, 100, 1000, 10000]
    ensures [Pow10(5), Pow10(6), Pow10(7)] == [100000, 1000000, 10000000]
    ensures [Pow10(8), Pow10(9), Pow10(10)] == [100000000, 1000000000, 10000000000]
  {
    assert Pow10(2) == 100;
    assert Pow10(4) == 10000;
    assert Pow10(6) == 1000000;
    assert Pow10(8) == 100000000;
  }

  /** Store one byte at es:edi and go on to the next. */
  method Stosb(buf: array<byte>, at: nat, b: byte, ghost was: seq<byte>, ghost edi0: nat, ghost out: seq<byte>)
    returns (edi: nat)
    requires at == edi0 + |out| < buf.Length == |was| && buf[..] == Splice(was, edi0, out)
    modifies buf
    ensures edi == at + 1 && buf[..] == Splice(was, edi0, out + [b]) && buf[edi0..edi] == out + [b]
  {
    buf[at] := b;
    edi := at + 1;
    assert Splice(was, edi0, out)[at := b] == Splice(was, edi0, out + [b]);
  }

  /** The table search: the first divisor that fits, or none for a single digit. */
  method GetExtent(eax: dword) returns (ecx: nat)
    ensures ecx <= 9
    ensures ecx == 9 ==> eax < 10
    ensures ecx < 9 ==> DIVISORS[ecx] <= eax < 10 * DIVISORS[ecx]
  {
    var at := -1;
    while at != 8
      invariant -1 <= at <= 8
      invariant at >= 0 ==> eax < DIVISORS[at]
      decreases 8 - at
    {
      at := at + 1;
      if eax >= DIVISORS[at] {
        return at;
      }
    }
    return 9;
  }

  /** The printer between two digits: `out` is stored, and `ecx` is the next table entry. */
  ghost predicate Printing(n: dword, now: seq<byte>, was: seq<byte>, edi0: nat, out: seq<byte>, eax: nat, ecx: nat) {
    && ecx <= 9 && edi0 + |out| <= |was| && now == Splice(was, edi0, out)
    && Halfway(n, out, eax, Pow10(10 - ecx))
    && (out == [] && ecx < 9 ==> eax >= DIVISORS[ecx])
  }

  lemma DigitStep(n: dword, out: seq<byte>, eax: nat, ecx: nat)
    requires ecx < 9 && Halfway(n, out, eax, Pow10(10 - ecx)) && (out == [] ==> eax >= DIVISORS[ecx])
    ensures DIVISORS[ecx] > 0 && eax / DIVISORS[ecx] < 10
    ensures Halfway(n, out + [0x30 + eax / DIVISORS[ecx]], eax % DIVISORS[ecx], Pow10(9 - ecx))
  {
    TableIsPowers(ecx);
    QuotientIsDigit(eax, DIVISORS[ecx]);
    HalfwayStep(n, out, eax, DIVISORS[ecx], eax / DIVISORS[ecx], eax % DIVISORS[ecx]);
  }

  /** `div` by the table entry and store the digit. */
  method ComputeDigit(eax: nat, ecx: nat, buf: array<byte>, at: nat,
                      ghost n: dword, ghost was: seq<byte>, ghost edi0: nat, ghost out: seq<byte>)
    returns (rest: nat, edi: nat, ghost out': seq<byte>)
    requires Printing(n, buf[..], was, edi0, out, eax, ecx) && ecx < 9 && at == edi0 + |out| < buf.Length
    modifies buf
    ensures Printing(n, buf[..], was, edi0, out', rest, ecx + 1)
    ensures |out'| == |out| + 1 && edi == at + 1
  {
    DigitStep(n, out, eax, ecx);
    var digit := eax / DIVISORS[ecx];
    rest := eax % DIVISORS[ecx];
    out' := out + [0x30 + digit];
    edi := Stosb(buf, at, 0x30 + digit, was, edi0, out);
  }

  /** Print an unsigned number: what is stored is canonical, reads back as the number, takes at most
      ten bytes, and nothing else changes. */
  method PutDecDword(n: dword, buf: array<byte>, edi0: nat) returns (edi: nat)
    requires edi0 + 10 <= buf.Length
    modifies buf
    ensures edi0 < edi <= edi0 + 10
    ensures Canonical(buf[edi0..edi]) && ParseDec(buf[edi0..edi]) == n
    ensures buf[..] == Splice(old(buf[..]), edi0, buf[edi0..edi])
  {
    var eax: nat := n;
    var ecx := GetExtent(n);
    ghost var was, start := buf[..], ecx;
    ghost var out: seq<byte> := [];
    if ecx < 9 {
      StartsHalfway(ecx, n);
    }
    edi := edi0;
    while ecx != 9
      invariant start <= ecx && |out| == ecx - start && edi == edi0 + |out|
      invariant Printing(n, buf[..], was, edi0, out, eax, ecx)
      decreases 9 - ecx
    {
      eax, edi, out := ComputeDigit(eax, ecx, buf, edi, n, was, edi0, out);
      ecx := ecx + 1;
    }
    assert Pow10(1) == 10 * Pow10(0) == 10;
    FinalDigit(n, out, eax);
    edi := Stosb(buf, edi, eax + 0x30, was, edi0, out);
  }

  lemma StartsHalfway(ecx: nat, n: dword)
    requires ecx < 9 && n < 10 * DIVISORS[ecx]
    ensures Halfway(n, [], n, Pow10(10 - ecx))
  {
    TableIsPowers(ecx);
  }

  lemma FinalDigit(n: dword, out: seq<byte>, eax: nat)
    requires Halfway(n, out, eax, 10)
    ensures eax < 10 && Canonical(out + [eax + 0x30]) && ParseDec(out + [eax + 0x30]) == n
  {
    ParseAppend(out, eax + 0x30);
  }

  // ---------------------------------------------------------------- signed decimal

  function ParseSigned(s: seq<byte>): int {
    if s != [] && s[0] == MINUS then -ParseDec(s[1..]) else ParseDec(s)
  }

  predicate CanonicalSigned(s: seq<byte>) {
    if s != [] && s[0] == MINUS then Canonical(s[1..]) && s[1] != ZERO else Canonical(s)
  }

  lemma CanonicalSignedUnique(s: seq<byte>, t: seq<byte>)
    requires CanonicalSigned(s) && CanonicalSigned(t) && ParseSigned(s) == ParseSigned(t)
    ensures s == t
  {
    var s', t' := if s[0] == MINUS then s[1..] else s, if t[0] == MINUS then t[1..] else t;
    ParseBounds(s');
    ParseBounds(t');
    assert s[0] == MINUS ==> Pow10(|s'| - 1) >= 1;
    assert t[0] == MINUS ==> Pow10(|t'| - 1) >= 1;
    CanonicalUnique(s', t');
    assert s[0] == MINUS ==> s == [MINUS] + s';
    assert t[0] == MINUS ==> t == [MINUS] + t';
  }

  /** Print a signed number, also the most negative one. */
  method PutDecDwordSigned(n: dword, buf: array<byte>, edi0: nat) returns (edi: nat)
    requires edi0 + 11 <= buf.Length
    modifies buf
    ensures edi0 < edi <= edi0 + 11
    ensures CanonicalSigned(buf[edi0..edi])
    ensures ParseSigned(buf[edi0..edi]) == if n < 0x8000_0000 then n else n - 0x1_0000_0000
    ensures buf[edi0] == 0x2D <==> n >= 0x8000_0000
    ensures buf[..] == Splice(old(buf[..]), edi0, buf[edi0..edi])
  {
    if n < 0x8000_0000 {
      edi := PutDecDword(n, buf, edi0);
      assert buf[edi0..edi][0] != MINUS;
      return;
    }
    ghost var was := buf[..];
    buf[edi0] := MINUS;
    var eax: dword := 0xFFFF_FFFF - n;
    eax := eax + 1;
    ghost var signed := buf[..];
    edi := PutDecDword(eax, buf, edi0 + 1);
    ghost var digits := buf[edi0 + 1..edi];
    LeadingZero(digits);
    assert buf[..] == Splice(signed, edi0 + 1, digits);
    SignThenDigits(was, edi0, digits);
    assert buf[edi0..edi] == [MINUS] + digits;
    assert ([MINUS] + digits)[1..] == digits;
  }

  lemma SignThenDigits(was: seq<byte>, at: nat, digits: seq<byte>)
    requires at + 1 + |digits| <= |was|
    ensures Splice(was[at := MINUS], at + 1, digits) == Splice(was, at, [MINUS] + digits)
  {
  }

  /** Only zero is written with a zero in front. */
  lemma LeadingZero(s: seq<byte>)
    requires Canonical(s) && ParseDec(s) > 0
    ensures s[0] != ZERO
  {
    if |s| == 1 {
      assert s[..0] == [];
    }
  }

  /** The sign costs a byte: the output takes 11 bytes exactly from -1000000000 down, one more than
      the ten that the caller's comment allows for. */
  lemma ElevenBytesExactly(s: seq<byte>)
    requires CanonicalSigned(s) && -0x8000_0000 <= ParseSigned(s) < 0x8000_0000
    ensures |s| <= 11
    ensures |s| == 11 <==> ParseSigned(s) <= -1000000000
  {
    var s' := if s[0] == MINUS then s[1..] else s;
    ParseBounds(s');
    PowersOfTen();
    if |s'| == 1 && s'[0] == ZERO {
      assert s'[..0] == [];
    } else {
      Pow10Grows(|s'| - 1, 10);
      Pow10Grows(10, |s'| - 1);
      Pow10Grows(9, |s'| - 1);
      Pow10Grows(|s'|, 9);
    }
  }

  lemma {:induction false} Pow10Grows(a: nat, b: nat)
    ensures a <= b ==> 1 <= Pow10(a) <= Pow10(b)
    decreases b
  {
    if a < b {
      Pow10Grows(a, b - 1);
    } else if a == b && b > 0 {
      Pow10Grows(a - 1, b - 1);
    }
  }

  // ---------------------------------------------------------------- hexadecimal

  const HEX_DIGITS: seq<byte> :=
    [0x30, 0x31, 0x32, 0x33, 0x34, 0x35, 0x36, 0x37, 0x38, 0x39, 0x41, 0x42, 0x43, 0x44, 0x45, 0x46]

  function HexValue(b: byte): int {
    if b <= 0x39 then b - 0x30 else b - 0x37
  }

  function ParseHex(s: seq<byte>): int {
    if s == [] then 0 else ParseHex(s[..|s| - 1]) * 16 + HexValue(s[|s| - 1])
  }

  function Pow16(k: nat): (p: nat)
    ensures p > 0
  {
    if k == 0 then 1 else 16 * Pow16(k - 1)
  }

  /** A number shifted right by `k` hex digits. */
  function Shifted(n: nat, k: nat): nat {
    if k == 0 then n else Shifted(n / 16, k - 1)
  }

  /** The `w` lowest hex digits of a number, highest first. */
  function HexDigits(n: nat, w: nat): (s: seq<byte>)
    ensures |s| == w
  {
    if w == 0 then [] else HexDigits(n / 16, w - 1) + [HEX_DIGITS[n % 16]]
  }

  lemma {:induction false} HexDigitAt(n: nat, w: nat, j: nat)
    requires j < w
    ensures HexDigits(n, w)[j] == HEX_DIGITS[Shifted(n, w - 1 - j) % 16]
  {
    if j < w - 1 {
      HexDigitAt(n / 16, w - 1, j);
    }
  }

  /** The table holds the characters '0' to '9' and 'A' to 'F', in the order of their values. */
  lemma TableExactly(d: nat)
    requires d < 16
    ensures HEX_DIGITS[d] == ("0123456789ABCDEF"[d]) as int && HexValue(HEX_DIGITS[d]) == d
    ensures 0x30 <= HEX_DIGITS[d] <= 0x39 || 0x41 <= HEX_DIGITS[d] <= 0x46
  {
    assert d < 10 ==> HEX_DIGITS[d] == 0x30 + d;
    assert d >= 10 ==> HEX_DIGITS[d] == 0x37 + d;
  }

  /** What is printed are such characters, and they read back as the number modulo 16^w. */
  lemma {:induction false} HexReadsBack(n: nat, w: nat)
    ensures ParseHex(HexDigits(n, w)) == n % Pow16(w)
    ensures forall b :: b in HexDigits(n, w) ==> 0x30 <= b <= 0x39 || 0x41 <= b <= 0x46
  {
    if w > 0 {
      HexReadsBack(n / 16, w - 1);
      TableExactly(n % 16);
      ParseHexAppend(HexDigits(n / 16, w - 1), HEX_DIGITS[n % 16]);
      LowDigit(n, Pow16(w - 1));
    }
  }

  lemma ParseHexAppend(s: seq<byte>, d: byte)
    ensures ParseHex(s + [d]) == 16 * ParseHex(s) + HexValue(d)
  {
    assert (s + [d])[..|s|] == s;
  }

  lemma LowDigit(n: nat, p: nat)
    requires p > 0
    ensures n % (16 * p) == n / 16 % p * 16 + n % 16
  {
    var q, r := n / 16 / p, n / 16 % p;
    assert n / 16 == q * p + r;
    assert n == q * (16 * p) + (r * 16 + n % 16);
    DivModUnique(n, q, r * 16 + n % 16, 16 * p);
  }

  /** Bytes printed for a width in CL; zero counts down through 256. */
  function HexCount(cl: byte): nat {
    if cl == 0 then 64 else cl / 4
  }

  /** The digit that is printed with `left` digits to go after it; the count of a 32-bit `shr` is taken
      modulo 32. */
  function HexDigit(n: dword, left: nat): byte {
    HEX_DIGITS[Shifted(n, 4 * left % 32 / 4) % 16]
  }

  /** `count` digits of a number, with the shift counts modulo 32. */
  function HexStream(n: dword, count: nat): (s: seq<byte>)
    ensures |s| == count
  {
    seq(count, j requires 0 <= j < count => HexDigit(n, count - 1 - j))
  }

  lemma HexDigitAround(n: dword, left: nat)
    ensures HexDigit(n, left) == HEX_DIGITS[Shifted(n, left % 8) % 16]
  {
    DivModUnique(4 * left, left / 8, 4 * (left % 8), 32);
  }

  lemma HexStreamAt(n: dword, count: nat, j: nat)
    requires j < count
    ensures HexStream(n, count)[j] == HEX_DIGITS[Shifted(n, (count - 1 - j) % 8) % 16]
  {
    HexDigitAround(n, count - 1 - j);
  }

  /** Up to eight digits no shift count wraps. */
  lemma HexStreamIsDigits(n: dword, w: nat)
    requires w <= 8
    ensures HexStream(n, w) == HexDigits(n, w)
  {
    var x, y := HexStream(n, w), HexDigits(n, w);
    forall j | 0 <= j < w ensures x[j] == y[j] {
      SameDigit(n, w, j, w - 1 - j);
    }
  }

  lemma SameDigit(n: dword, w: nat, j: nat, left: nat)
    requires j < w && left == w - 1 - j < 8
    ensures HexStream(n, w)[j] == HexDigits(n, w)[j]
  {
    HexDigitAt(n, w, j);
    HexStreamAt(n, w, j);
    assert left % 8 == left;
  }

  /** Beyond eight digits the shift counts go around, so the number's eight digits are repeated. */
  lemma HexStreamRepeats(n: dword, count: nat, j: nat)
    requires j < count
    ensures HexStream(n, count)[j] == HexDigits(n, 8)[7 - (count - 1 - j) % 8]
  {
    HexDigitAt(n, 8, 7 - (count - 1 - j) % 8);
    HexStreamAt(n, count, j);
  }

  lemma HexStreamNext(n: dword, count: nat, left: nat)
    requires left < count
    ensures HexStream(n, count)[..count - left] == HexStream(n, count)[..count - left - 1] + [HexDigit(n, left)]
  {
    assert HexStream(n, count)[count - left - 1] == HexDigit(n, count - 1 - (count - left - 1));
  }

  /** `shr`, mask, `xlat` and store. */
  method OutputDigit(n: dword, cl: byte, buf: array<byte>, at: nat,
                     ghost was: seq<byte>, ghost edi0: nat, ghost out: seq<byte>, ghost left: nat) returns (edi: nat)
    requires cl == 4 * left && at == edi0 + |out| < buf.Length == |was| && buf[..] == Splice(was, edi0, out)
    modifies buf
    ensures edi == at + 1 && buf[..] == Splice(was, edi0, out + [HexDigit(n, left)])
  {
    edi := Stosb(buf, at, HEX_DIGITS[Shifted(n, cl % 32 / 4) % 16], was, edi0, out);
  }

  /** Print hex digits; `cl0` is the number of bits, a multiple of four. Up to 32 bits the output is
      the low digits of the number. */
  method PutHexDword(n: dword, cl0: byte, buf: array<byte>, edi0: nat) returns (edi: nat)
    requires cl0 % 4 == 0 && edi0 + HexCount(cl0) <= buf.Length
    modifies buf
    ensures edi == edi0 + if cl0 == 0 then 64 else cl0 as int / 4
    ensures buf[edi0..edi] == HexStream(n, edi - edi0)
    ensures 4 <= cl0 <= 32 ==> buf[edi0..edi] == HexDigits(n, cl0 / 4)
    ensures buf[..] == Splice(old(buf[..]), edi0, buf[edi0..edi])
  {
    ghost var count, was, left := HexCount(cl0), buf[..], HexCount(cl0);
    ghost var out: seq<byte> := [];
    var cl: byte, first := cl0, true;
    edi := edi0;
    while first || cl != 0
      invariant 0 <= left <= count && (first <==> left == count) && edi == edi0 + |out|
      invariant cl == if left == 64 then 0 else 4 * left
      invariant out == HexStream(n, count)[..count - left] && buf[..] == Splice(was, edi0, out)
      decreases left
    {
      first := false;
      left := left - 1;
      cl := if cl == 0 then 0xFC else cl - 4;  // sub cl, 4
      HexStreamNext(n, count, left);
      edi := OutputDigit(n, cl, buf, edi, was, edi0, out, left);
      out := HexStream(n, count)[..count - left];
    }
    assert HexStream(n, count)[..count] == HexStream(n, count);
    if 4 <= cl0 <= 32 {
      HexStreamIsDigits(n, cl0 / 4);
    }
  }
}
