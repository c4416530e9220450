/** Cylinder/head/sector to sector number, in the 8- and 16-bit registers the driver uses. */
module Chs {
  import opened Words
  import opened FlatDisk

  /** The conversion of int 13h AH=02 and AH=03, instruction by instruction. */
  function ChsToLba(ch: byte, cl: byte, dh: byte): Lba {
    var ax := Wrap(255 * ch + dh);                    // mul ch; add ax, dx
    var product := ax * 63;                           // mul dx, result in dx:ax
    var sum := product % 0x1_0000 + (cl - 1) % 0x100; // sub cl, 1; add ax, cx
    Lba(Wrap(sum), Wrap(product / 0x1_0000 + sum / 0x1_0000))  // adc dx, 0
  }

  function Linear(l: Lba): nat {
    l.hi * 0x1_0000 + l.lo
  }

  /** No product or carry is ever lost, whatever the registers hold. */
  lemma ChsExact(ch: byte, cl: byte, dh: byte)
    ensures Linear(ChsToLba(ch, cl, dh)) == (255 * ch + dh) * 63 + (cl - 1) % 0x100
  {
    AddWithCarry((255 * ch + dh) * 63, (cl - 1) % 0x100);
  }

  /** `add` on the low word and `adc` on the high word add to the 32-bit value. */
  lemma AddWithCarry(product: nat, c: byte)
    requires product < 0x40_0000
    ensures var sum := product % 0x1_0000 + c;
      Wrap(product / 0x1_0000 + sum / 0x1_0000) * 0x1_0000 + Wrap(sum) == product + c
  {
    var hi, lo := product / 0x1_0000, product % 0x1_0000;
    assert product == hi * 0x1_0000 + lo && hi < 0x40;
    if lo + c >= 0x1_0000 {
      WrapOnce(lo + c);
    }
  }

  /** Cylinder 4, head 20, sector 16 is sector 65535: two sectors from there cross, so the second
      one read is sector 0 (CrossingReadsRegionStart). */
  lemma CrossingAddress()
    ensures InGeometry(GEOMETRY_CX, GEOMETRY_DX, Address(4, 20, 16))
    ensures LbaOf(Address(4, 20, 16)) == Lba(0xFFFF, 0)
  {
    ChsExact(4, 16, 20);
  }

  datatype Address = Address(cylinder: byte, head: byte, sector: byte)

  /** The addresses a 255-head, 63-sector geometry has. */
  predicate IsAddress(a: Address) {
    a.head <= 254 && 1 <= a.sector <= 63
  }

  function LbaOf(a: Address): Lba {
    ChsToLba(a.cylinder, a.sector, a.head)
  }

  /** The number of an address, counting sectors, then heads, then cylinders. */
  function SectorNumber(a: Address): nat
    requires IsAddress(a)
  {
    (255 * a.cylinder as int + a.head as int) * 63 + a.sector as int - 1
  }

  lemma SectorNumberIsLinear(a: Address, l: Lba)
    requires IsAddress(a) && l == LbaOf(a)
    ensures SectorNumber(a) == Linear(l)
  {
    ChsExact(a.cylinder, a.sector, a.head);
  }

  function AddressOf(n: nat): Address
    requires n < 256 * 255 * 63
  {
    Address(n / 63 / 255, n / 63 % 255, n % 63 + 1)
  }

  /** The driver's conversion is a bijection from the addresses onto 0..256*255*63-1. */
  lemma AddressRoundTrip(a: Address)
    requires IsAddress(a)
    ensures Linear(LbaOf(a)) < 256 * 255 * 63
    ensures AddressOf(Linear(LbaOf(a))) == a
  {
    ChsExact(a.cylinder, a.sector, a.head);
    MixedRadix(a.cylinder, a.head, a.sector - 1);
  }

  lemma MixedRadix(c: nat, h: nat, s: nat)
    requires h < 255 && s < 63
    ensures var n := (255 * c + h) * 63 + s; n / 63 / 255 == c && n / 63 % 255 == h && n % 63 == s
  {
    var t := 255 * c + h;
    assert (t * 63 + s) / 63 == t && (t * 63 + s) % 63 == s;
    assert t / 255 == c && t % 255 == h;
  }

  lemma LbaRoundTrip(n: nat)
    requires n < 256 * 255 * 63
    ensures IsAddress(AddressOf(n)) && Linear(LbaOf(AddressOf(n))) == n
  {
    var a := AddressOf(n);
    ChsExact(a.cylinder, a.sector, a.head);
    assert n / 63 == 255 * (n / 63 / 255) + n / 63 % 255;
  }

  // ---------------------------------------------------------------- reported geometry

  /** What AH=08 returns in CX and DX. */
  const GEOMETRY_CX: word := 0x073f
  const GEOMETRY_DX: word := 0xfe01

  /** A caller's reading of those registers: the largest cylinder, head and sector number. */
  predicate InGeometry(cx: word, dx: word, a: Address) {
    && a.cylinder <= cx / 0x100 + (cx % 0x100 / 64) * 0x100
    && a.head <= dx / 0x100
    && 1 <= a.sector <= cx % 64
  }

  /** The geometry that AH=08 reports covers exactly sectors 0..128519 (8 * 255 * 63). */
  lemma GeometryCovers(n: nat)
    requires n < 256 * 255 * 63
    ensures InGeometry(GEOMETRY_CX, GEOMETRY_DX, AddressOf(n)) <==> n < 128520
    ensures GEOMETRY_DX % 0x100 == 1  // the number of drives
  {
    assert n / 63 / 255 <= 7 <==> n / 63 < 2040;
  }
}
