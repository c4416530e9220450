/**
 Whole runs of a guest against the virtual disk. A run mixes int 13h reads and writes with any
 other stores to RAM; the image behaves as a flat array of sectors: what a read delivers for a
 sector is the data of the last write that addressed it.
 */
module DiskHistory {
  import opened Words
  import opened FlatDisk
  import opened Chs
  import opened VirtualDisk

  datatype Guest = Guest(disk: seq<byte>, ram: seq<byte>)

  datatype Call =
    | ReadCall(l: Lba, n: byte, es: word, bx: word)
    | WriteCall(l: Lba, n: byte, es: word, bx: word)
    | Store(p: nat, b: byte)  // the guest program, outside the handler

  /** What the handler asks of its caller, and a count that does not leave the window. */
  ghost predicate Ok(diskSize: nat, ramSize: nat, c: Call) {
    match c
    case Store(p, _) => p < ramSize
    case _ => Fits(diskSize, c.l, c.n) && InRam(ramSize, c.es, c.bx, 512 * c.n as int)
              && BufferOk(ramSize, c.es, c.bx, 512 * c.n as int) && !OverrunsWindow(c.l, c.n)
  }

  ghost function Step(g: Guest, c: Call): (r: Guest)
    requires Ok(|g.disk|, |g.ram|, c)
    ensures |r.disk| == |g.disk| && |r.ram| == |g.ram|
  {
    match c
    case ReadCall(l, n, es, bx) => g.(ram := Put(g.ram, es, bx, FlatRead(g.disk, l, n)))
    case WriteCall(l, n, es, bx) => g.(disk := FlatWrite(g.disk, l, Get(g.ram, es, bx, 512 * n as int), n))
    case Store(p, b) => g.(ram := g.ram[p := b])
  }

  /** One call, as the driver serves it, is one step. */
  method Serve(m: Machine, c: Call)
    requires m.Coherent() && Ok(m.disk.Length, m.ram.Length, c)
    modifies m, m.disk, m.ram
    ensures m.Coherent()
    ensures Guest(m.disk[..], m.ram[..]) == Step(old(Guest(m.disk[..], m.ram[..])), c)
  {
    match c
    case ReadCall(l, n, es, bx) =>
      var bl := m.ReadSectors(l, n, es, bx);
    case WriteCall(l, n, es, bx) =>
      var out := m.WriteSectors(l, n, es, bx);
    case Store(p, b) =>
      m.ram[p] := b;
  }

  /** The call that an int 13h request makes. */
  function CallOf(r: Regs): Call
    requires r.ax / 0x100 in {2, 3}
  {
    if r.ax / 0x100 == 2 then ReadCall(r.Start(), r.Count(), r.es, r.bx)
    else WriteCall(r.Start(), r.Count(), r.es, r.bx)
  }

  /** An int 13h request in registers, from the dispatch to the return, is that step. */
  method ServeInt13(m: Machine, r: Regs) returns (res: Result)
    requires m.Coherent() && r.Ours(m.driveNumber) && r.ax / 0x100 in {2, 3}
    requires Ok(m.disk.Length, m.ram.Length, CallOf(r))
    modifies m, m.disk, m.ram
    ensures m.Coherent() && m.driveNumber == old(m.driveNumber)
    ensures res.Returned? && !res.carry
    ensures Guest(m.disk[..], m.ram[..]) == Step(old(Guest(m.disk[..], m.ram[..])), CallOf(r))
  {
    res := m.Int13h(r);
  }

  ghost predicate AllOk(g: Guest, calls: seq<Call>) {
    forall i :: 0 <= i < |calls| ==> Ok(|g.disk|, |g.ram|, calls[i])
  }

  ghost function Run(g: Guest, calls: seq<Call>): (r: Guest)
    requires AllOk(g, calls)
    ensures |r.disk| == |g.disk| && |r.ram| == |g.ram|
  {
    if calls == [] then g
    else
      var last := |calls| - 1;
      Step(Run(g, calls[..last]), calls[last])
  }

  /** The data of the last write of a run that addressed sector `s`, or else what was there. */
  ghost function LastWritten(g: Guest, calls: seq<Call>, s: nat): (r: seq<byte>)
    requires AllOk(g, calls) && 512 * s + 512 <= |g.disk|
    ensures |r| == 512
  {
    if calls == [] then SectorOf(g.disk, s)
    else
      var last := |calls| - 1;
      var c := calls[last];
      if c.WriteCall? && Covers(c.l, c.n, s) then
        var data := Get(Run(g, calls[..last]).ram, c.es, c.bx, 512 * c.n as int);
        data[512 * IndexOf(c.l, s)..512 * IndexOf(c.l, s) + 512]
      else LastWritten(g, calls[..last], s)
  }

  /** The image is a flat array of sectors over every run. */
  lemma {:induction false} ImageHoldsLastWritten(g: Guest, calls: seq<Call>, s: nat)
    requires AllOk(g, calls) && 512 * s + 512 <= |g.disk|
    ensures SectorOf(Run(g, calls).disk, s) == LastWritten(g, calls, s)
  {
    if calls != [] {
      var last := |calls| - 1;
      ImageHoldsLastWritten(g, calls[..last], s);
      var before, c := Run(g, calls[..last]), calls[last];
      if c.WriteCall? {
        FlatWriteSector(before.disk, c.l, Get(before.ram, c.es, c.bx, 512 * c.n as int), c.n, s);
      }
    }
  }

  /** After any run, a read delivers for each of its sectors the data last written there. Of a read
      of more than 128 sectors the buffer, which wraps, keeps the last 128. */
  lemma ReadDeliversLastWritten(g: Guest, calls: seq<Call>, c: Call, i: nat)
    requires AllOk(g, calls) && c.ReadCall? && Ok(|g.disk|, |g.ram|, c) && i < c.n <= i + 128
    ensures 512 * SectorAt(c.l, i) + 512 <= |g.disk|
    ensures Get(Step(Run(g, calls), c).ram, c.es, c.bx, 512 * c.n as int)[512 * i..512 * i + 512]
         == LastWritten(g, calls, SectorAt(c.l, i))
  {
    var before := Run(g, calls);
    var x := FlatRead(before.disk, c.l, c.n);
    GetPut(before.ram, c.es, c.bx, x, 512 * i);
    var got := Get(Put(before.ram, c.es, c.bx, x), c.es, c.bx, |x|);
    assert got[512 * i..512 * i + 512] == got[512 * i..][..512] && x[512 * i..512 * i + 512] == x[512 * i..][..512];
    FlatReadSector(before.disk, c.l, c.n, i);
    ImageHoldsLastWritten(g, calls, SectorAt(c.l, i));
  }

  /** Within one region of 65536 sectors the addresses are the linear ones the caller meant. */
  lemma LinearReadDeliversLastWritten(g: Guest, calls: seq<Call>, c: Call, i: nat)
    requires AllOk(g, calls) && c.ReadCall? && Ok(|g.disk|, |g.ram|, c) && i < c.n <= i + 128
    requires c.l.lo + c.n <= 0x1_0000
    ensures 512 * (Linear(c.l) + i) + 512 <= |g.disk|
    ensures Get(Step(Run(g, calls), c).ram, c.es, c.bx, 512 * c.n as int)[512 * i..512 * i + 512]
         == LastWritten(g, calls, Linear(c.l) + i)
  {
    LinearExactlyWithinRegion(c.l, c.n);
    assert SectorAt(c.l, i) == Linear(c.l) + i;
    ReadDeliversLastWritten(g, calls, c, i);
  }

  /** From the caller's address: after any run, a read from a cylinder, head and sector delivers
      the data last written from there on, when it stays within one region. */
  lemma AddressedReadDeliversLastWritten(g: Guest, calls: seq<Call>, c: Call, a: Address, i: nat)
    requires AllOk(g, calls) && c.ReadCall? && Ok(|g.disk|, |g.ram|, c) && i < c.n <= i + 128
    requires IsAddress(a) && c.l == LbaOf(a) && c.l.lo + c.n <= 0x1_0000
    ensures 512 * (SectorNumber(a) + i) + 512 <= |g.disk|
    ensures Get(Step(Run(g, calls), c).ram, c.es, c.bx, 512 * c.n as int)[512 * i..512 * i + 512]
         == LastWritten(g, calls, SectorNumber(a) + i)
  {
    SectorNumberIsLinear(a, c.l);
    LinearReadDeliversLastWritten(g, calls, c, i);
  }

  // ---------------------------------------------------------------- the caller's view

  /** A request by its bytes: AH and AL in AX, cylinder and sector in CX, head and drive in DX. */
  lemma RequestExactly(r: Regs, drive: byte, ah: byte, al: byte, a: Address, dl: byte)
    requires r.ax == 0x100 * ah as int + al && IsAddress(a)
    requires r.cx == 0x100 * a.cylinder as int + a.sector && r.dx == 0x100 * a.head as int + dl
    ensures r.Ours(drive) <==> dl == drive && (ah == 2 || ah == 3 || ah == 8)
    ensures r.Count() == al && Linear(r.Start()) == SectorNumber(a)
    ensures r.Start().lo == SectorNumber(a) % 0x1_0000
    ensures ah == 2 ==> r.ax / 0x100 == 2 && CallOf(r) == ReadCall(r.Start(), al, r.es, r.bx)
    ensures ah == 3 ==> r.ax / 0x100 == 3 && CallOf(r) == WriteCall(r.Start(), al, r.es, r.bx)
  {
    TwoBytes(ah, al);
    TwoBytes(a.cylinder, a.sector);
    TwoBytes(a.head, dl);
    StartExactly(a, r.Start());
  }

  lemma TwoBytes(hi: byte, lo: byte)
    ensures var w := 0x100 * hi as int + lo; w / 0x100 == hi && w % 0x100 == lo
  {
  }

  lemma StartExactly(a: Address, l: Lba)
    requires IsAddress(a) && l == ChsToLba(a.cylinder, a.sector, a.head)
    ensures Linear(l) == SectorNumber(a) && l.lo == SectorNumber(a) % 0x1_0000
  {
    SectorNumberIsLinear(a, l);
    DivModUnique(SectorNumber(a), l.hi, l.lo, 0x1_0000);
  }

  /** Byte `b` of sector `i` of a buffer at es:bx, which wraps in its segment. */
  function BufferByte(es: word, bx: word, i: nat, b: nat): nat {
    Cell(es, bx, 512 * i + b)
  }

  /** In real mode a segment starts at sixteen times its number and offsets are modulo 65536. */
  lemma BufferByteExactly(es: word, bx: word, i: nat, b: nat)
    ensures BufferByte(es, bx, i, b) == 16 * es as int + (bx as int + 512 * i + b) % 0x1_0000
  {
    WrapIsMod(bx + 512 * i + b);
  }

  /** A read leaves in the caller's buffer, byte for byte, what the run last wrote to each of the
      sectors from `from` on; of more than 128 sectors it leaves the last 128. */
  ghost predicate Delivers(g: Guest, calls: seq<Call>, c: Call, from: nat) {
    && AllOk(g, calls) && c.ReadCall? && Ok(|g.disk|, |g.ram|, c)
    && 512 * (from + c.n) <= |g.disk|
    && forall i: nat, b: nat :: i < c.n <= i + 128 && b < 512 ==>
         BufferByte(c.es, c.bx, i, b) < |g.ram|
         && Step(Run(g, calls), c).ram[BufferByte(c.es, c.bx, i, b)] == LastWritten(g, calls, from + i)[b]
  }

  /** The main promise of int 13h AH=02: after any run of calls and stores, a request whose registers
      name a cylinder, head and sector delivers from that sector on. */
  lemma RequestedReadDelivers(g: Guest, calls: seq<Call>, r: Regs, n: byte, a: Address, dl: byte)
    requires r.ax == 0x200 + n as int && n > 0 && IsAddress(a)
    requires r.cx == 0x100 * a.cylinder as int + a.sector && r.dx == 0x100 * a.head as int + dl
    requires r.ax / 0x100 == 2 && AllOk(g, calls) && Ok(|g.disk|, |g.ram|, CallOf(r))
    requires CallOf(r).l.lo + n <= 0x1_0000
    ensures Delivers(g, calls, CallOf(r), SectorNumber(a))
  {
    RequestExactly(r, dl, 2, n, a, dl);
    CallDelivers(g, calls, CallOf(r), SectorNumber(a));
  }

  lemma CallDelivers(g: Guest, calls: seq<Call>, c: Call, from: nat)
    requires AllOk(g, calls) && c.ReadCall? && Ok(|g.disk|, |g.ram|, c) && c.n > 0
    requires from == Linear(c.l) && c.l.lo + c.n <= 0x1_0000
    ensures Delivers(g, calls, c, from)
  {
    assert SectorAt(c.l, c.n - 1) == from + c.n - 1;
    forall i: nat, b: nat | i < c.n <= i + 128 && b < 512
      ensures 512 * (from + c.n) <= |g.disk| && BufferByte(c.es, c.bx, i, b) < |g.ram|
      ensures Step(Run(g, calls), c).ram[BufferByte(c.es, c.bx, i, b)] == LastWritten(g, calls, from + i)[b]
    {
      ByteDelivered(g, calls, c, from, i, b);
    }
  }

  lemma ByteDelivered(g: Guest, calls: seq<Call>, c: Call, from: nat, i: nat, b: nat)
    requires AllOk(g, calls) && c.ReadCall? && Ok(|g.disk|, |g.ram|, c) && i < c.n <= i + 128 && b < 512
    requires from == Linear(c.l) && c.l.lo + c.n <= 0x1_0000
    ensures BufferByte(c.es, c.bx, i, b) < |g.ram| && 512 * (from + i) + 512 <= |g.disk|
    ensures Step(Run(g, calls), c).ram[BufferByte(c.es, c.bx, i, b)] == LastWritten(g, calls, from + i)[b]
  {
    LinearReadDeliversLastWritten(g, calls, c, i);
    BufferSector(Step(Run(g, calls), c).ram, c.es, c.bx, 512 * c.n as int, i, b, LastWritten(g, calls, from + i));
  }

  lemma BufferSector(ram: seq<byte>, es: word, bx: word, len: nat, i: nat, b: nat, x: seq<byte>)
    requires InRam(|ram|, es, bx, len) && 512 * i + 512 <= len && b < 512
    requires Get(ram, es, bx, len)[512 * i..512 * i + 512] == x
    ensures BufferByte(es, bx, i, b) < |ram| && ram[BufferByte(es, bx, i, b)] == x[b]
  {
    assert Get(ram, es, bx, len)[512 * i + b] == ram[Cell(es, bx, 512 * i + b)];
  }

  /** A write changes exactly the bytes of the sectors from `from` on, to those of the caller's
      buffer, and nothing else. */
  ghost predicate Stores(g: Guest, c: Call, from: nat) {
    && c.WriteCall? && Ok(|g.disk|, |g.ram|, c)
    && var at, len, after := 512 * from, 512 * c.n as int, Step(g, c);
       && after.ram == g.ram && at + len <= |g.disk|
       && (forall j: nat :: j < len ==>
             BufferByte(c.es, c.bx, 0, j) < |g.ram| && after.disk[at + j] == g.ram[BufferByte(c.es, c.bx, 0, j)])
       && (forall p :: 0 <= p < |g.disk| && !(at <= p < at + len) ==> after.disk[p] == g.disk[p])
  }

  /** The main promise of AH=03, by the request's registers. */
  lemma RequestedWriteStores(g: Guest, r: Regs, n: byte, a: Address, dl: byte)
    requires r.ax == 0x300 + n as int && n > 0 && IsAddress(a)
    requires r.cx == 0x100 * a.cylinder as int + a.sector && r.dx == 0x100 * a.head as int + dl
    requires r.ax / 0x100 == 3 && Ok(|g.disk|, |g.ram|, CallOf(r)) && CallOf(r).l.lo + n <= 0x1_0000
    ensures Stores(g, CallOf(r), SectorNumber(a))
  {
    RequestExactly(r, dl, 3, n, a, dl);
    CallStores(g, CallOf(r), SectorNumber(a));
  }

  lemma CallStores(g: Guest, c: Call, from: nat)
    requires c.WriteCall? && Ok(|g.disk|, |g.ram|, c) && c.n > 0
    requires from == Linear(c.l) && c.l.lo + c.n <= 0x1_0000
    ensures Stores(g, c, from)
  {
    var at, len, after := 512 * from, 512 * c.n as int, Step(g, c);
    assert SectorAt(c.l, c.n - 1) == from + c.n - 1;
    forall p | 0 <= p < |g.disk|
      ensures after.disk[p] == if at <= p < at + len then g.ram[BufferByte(c.es, c.bx, 0, p - at)] else g.disk[p]
    {
      ByteStored(g, c, from, p);
    }
    forall j: nat | j < len
      ensures BufferByte(c.es, c.bx, 0, j) < |g.ram| && after.disk[at + j] == g.ram[BufferByte(c.es, c.bx, 0, j)]
    {
      assert after.disk[at + j] == g.ram[BufferByte(c.es, c.bx, 0, at + j - at)];
    }
  }

  lemma ByteStored(g: Guest, c: Call, from: nat, p: nat)
    requires c.WriteCall? && Ok(|g.disk|, |g.ram|, c) && p < |g.disk|
    requires from == Linear(c.l) && c.l.lo + c.n <= 0x1_0000
    ensures forall j: nat :: j < 512 * c.n as int ==> BufferByte(c.es, c.bx, 0, j) < |g.ram|
    ensures var at := 512 * from;
      Step(g, c).disk[p] == if at <= p < at + 512 * c.n as int then g.ram[BufferByte(c.es, c.bx, 0, p - at)]
                            else g.disk[p]
  {
    var at, len := 512 * from, 512 * c.n as int;
    CoversLinear(c.l, c.n, p / 512);
    if at <= p < at + len {
      assert Get(g.ram, c.es, c.bx, len)[p - at] == g.ram[Cell(c.es, c.bx, p - at)];
    }
  }

  lemma CoversLinear(l: Lba, n: nat, s: nat)
    requires l.lo + n <= 0x1_0000
    ensures Covers(l, n, s) <==> Linear(l) <= s < Linear(l) + n
    ensures Covers(l, n, s) ==> IndexOf(l, s) == s - Linear(l)
  {
    assert s == 0x1_0000 * (s / 0x1_0000) + s % 0x1_0000;
  }
}
