/** Fixed-width unsigned quantities of the guest and the host, and bytes stored among others. */
module Words {

  type byte = b: int | 0 <= b < 0x100
  type word = w: int | 0 <= w < 0x1_0000
  type dword = d: int | 0 <= d < 0x1_0000_0000

  /** `d` with the bytes of `x` stored from `at` on. */
  function Splice(d: seq<byte>, at: nat, x: seq<byte>): (r: seq<byte>)
    requires x != [] ==> at + |x| <= |d|
    ensures |r| == |d|
  {
    if x == [] then d else d[..at] + x + d[at + |x|..]
  }

  /** The value an 8-bit register has for a signed compare. */
  function Signed8(b: byte): int {
    if b < 0x80 then b else b - 0x100
  }

  /** What a 16-bit register keeps of a number. The recursion, and not `%`, is the definition
      because most proofs need it for at most one wrap. */
  function Wrap(x: nat): word {
    if x < 0x1_0000 then x else Wrap(x - 0x1_0000)
  }

  lemma {:induction false} WrapIsMod(x: nat)
    ensures Wrap(x) == x % 0x1_0000
  {
    if x >= 0x1_0000 {
      WrapIsMod(x - 0x1_0000);
    }
  }

  lemma WrapOnce(x: nat)
    requires 0x1_0000 <= x < 0x2_0000
    ensures Wrap(x) == x - 0x1_0000
  {
  }

  /** Truncating early does not change a sum. */
  lemma {:induction false} WrapAdd(x: nat, y: nat)
    ensures Wrap(Wrap(x) + y) == Wrap(x + y)
  {
    if x >= 0x1_0000 {
      WrapAdd(x - 0x1_0000, y);
      assert Wrap(x + y) == Wrap(x + y - 0x1_0000);
    }
  }

  /** No wrap happens while the register has room. */
  lemma WrapRoom(x: nat, y: nat)
    requires Wrap(x) + y < 0x1_0000
    ensures Wrap(x + y) == Wrap(x) + y
  {
    WrapAdd(x, y);
  }

  /** The multiples of a power of two below 64 KiB survive a wrap. */
  lemma {:induction false} WrapLowBits(x: nat)
    ensures Wrap(x) % 8 == x % 8 && Wrap(x) % 2 == x % 2
  {
    if x >= 0x1_0000 {
      WrapLowBits(x - 0x1_0000);
    }
  }

  /** A quotient and a remainder are determined by what they make up. */
  lemma DivModUnique(x: nat, q: nat, r: nat, d: nat)
    requires x == q * d + r && r < d
    ensures x % d == r
  {
    var k := x / d - q;
    assert x == d * (x / d) + x % d;
    assert d * k == r - x % d;
  }

  lemma DivUnique(x: nat, q: nat, r: nat, d: nat)
    requires x == q * d + r && r < d
    ensures x / d == q
  {
    var k := x / d - q;
    DivModUnique(x, q, r, d);
    assert d * k == 0;
  }
}
