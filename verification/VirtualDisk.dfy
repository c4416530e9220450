/**
 The virtual disk: the guest option ROM's int 13h handler together with the host side of its
 4 KiB window. The guest sees eight sectors of the image at offset 0x1000 of the ROM's segment;
 it chooses them by writing a sector number to ports D000/D002 and anything to D004.
 */
module VirtualDisk {
  import opened Words
  import opened FlatDisk
  import opened Chs

  /** The KVM slot at 0xC9000: the ROM's second page until the first selection, then the disk. */
  datatype Mapping = BootRom | DiskWindow(base: Lba)

  /** How a transfer ends: normally, or with the first copy about to leave the window. */
  datatype Outcome = Finished | Overrun(offset: nat, sectors: nat)

  const DRIVE_COUNT: nat := 0x475   // BIOS data area, 0040:0075
  const ROM_SEGMENT: word := 0xC800

  /** Sectors the first copy of an unaligned transfer moves; `jng` compares as signed bytes. */
  function HeadSectors(offset: nat, count: byte): byte
    requires 1 <= offset < 8
  {
    if 8 - offset <= Signed8(count) then 8 - offset else count
  }

  /** The first copy stays in the window exactly when the count is positive as a signed byte. */
  lemma HeadFitsExactly(offset: nat, count: byte)
    requires 1 <= offset < 8
    ensures offset + HeadSectors(offset, count) <= 8 <==> count <= 127
    ensures count <= 127 ==> HeadSectors(offset, count) == if count < 8 - offset then count else 8 - offset
  {
  }

  /** Otherwise the copy runs through the whole rest of the segment and around: it reaches the start
      of the segment, where the handler's own code is. A read only loads from there (Around). */
  lemma OverrunReachesHandler(offset: nat, count: byte)
    requires 1 <= offset < 8 && count >= 128
    ensures var j := 0xF000 - 512 * offset;
      j < 512 * HeadSectors(offset, count) as int && Cell(ROM_SEGMENT, 0x1000 + 512 * offset, j) == 0xC_8000
  {
    WrapOnce(0x1_0000);
  }

  lemma Page(k: nat, r: nat)
    requires r < 8
    ensures 512 * (8 * k + r) % 4096 == 512 * r
  {
    assert 512 * (8 * k + r) == 4096 * k + 512 * r;
  }

  /** The low word of the block that holds sector `done` of a transfer. */
  function BlockOf(l: Lba, done: nat): word {
    Wrap(l.lo + done) - InBlock(l, done)
  }

  /** The increment after a copy that ends at the end of a block brings up the next block. */
  lemma NextBlock(l: Lba, done: nat, k: nat)
    requires InBlock(l, done) + k == 8
    ensures Wrap(BlockOf(l, done) + 8) == BlockOf(l, done + k) && InBlock(l, done + k) == 0
  {
    WrapAdd(l.lo + done, k);
    WrapLowBits(Wrap(l.lo + done) + k);
  }

  /** A block is at a page-aligned place in the image exactly when its low word is a multiple of 8. */
  lemma PageAlignedExactly(l: Lba)
    ensures 512 * Linear(l) % 4096 == 0 <==> l.lo % 8 == 0
  {
    var k: nat, r: nat := 0x2000 * l.hi + l.lo / 8, l.lo % 8;
    assert Linear(l) == 8 * k + r;
    Page(k, r);
  }

  /** The registers of an int 13h request. */
  datatype Regs = Regs(ax: word, bx: word, cx: word, dx: word, es: word) {
    function Count(): byte {
      ax % 0x100
    }

    function Start(): Lba {
      ChsToLba(cx / 0x100, cx % 0x100, dx / 0x100)
    }

    /** The requests the driver serves itself. */
    predicate Ours(driveNumber: byte) {
      ax / 0x100 in {2, 3, 8} && dx % 0x100 == driveNumber
    }
  }

  /** Sectors the last, partial block of a transfer moves; a read leaves the number in BL. */
  function Residue(l: Lba, n: byte): byte {
    if OverrunsWindow(l, n) || (l.lo % 8 != 0 && l.lo % 8 + n < 8) then 0 else (l.lo + n) % 8
  }

  /** What is left at a block boundary, with less than a block to go, is the residue. */
  lemma ResidueIs(l: Lba, n: byte, bl: byte)
    requires bl < 8 && bl <= n && InBlock(l, n - bl) == 0
    requires !OverrunsWindow(l, n) && (l.lo % 8 == 0 || l.lo % 8 + n >= 8)
    ensures bl == Residue(l, n)
  {
    var x: nat := l.lo + (n - bl);
    WrapLowBits(x);
    assert (x + bl) % 8 == bl;
  }

  /** It is zero when the first copy is the only one, and otherwise what follows the last block
      boundary. */
  lemma ResidueExactly(l: Lba, n: byte)
    ensures Residue(l, n) < 8
    ensures if l.lo % 8 != 0 && (n >= 128 || l.lo % 8 + n <= 8) then Residue(l, n) == 0
            else Residue(l, n) <= n && (l.lo + (n - Residue(l, n))) % 8 == 0
  {
    var x := l.lo + n;
    assert x == 8 * (x / 8) + x % 8;
  }

  /** The first copy of a transfer would leave the window: its start is unaligned and its count is
      negative as a signed byte. */
  predicate OverrunsWindow(l: Lba, n: byte) {
    l.lo % 8 != 0 && n >= 128
  }

  // ---------------------------------------------------------------- an overrunning read

  /** The block of eight sectors with the first sector of a transfer, as the window shows it. */
  function FirstBlock(d: seq<byte>, l: Lba, n: byte): (page: seq<byte>)
    requires Fits(|d|, l, n) && OverrunsWindow(l, n)
    ensures |page| == 0x1000
  {
    FirstBlockInImage(|d|, l, n);
    var from := 512 * (Linear(l) - l.lo % 8);
    d[from..from + 0x1000]
  }

  lemma FirstBlockInImage(size: nat, l: Lba, n: byte)
    requires Fits(size, l, n) && OverrunsWindow(l, n)
    ensures 512 * (Linear(l) - l.lo % 8) + 0x1000 <= size
  {
    assert SectorAt(l, 7 - l.lo % 8) == Linear(l) - l.lo % 8 + 7;
  }

  /** A byte of the ROM's segment: the ROM's first page, the window, and zero where nothing is. */
  function SegmentByte(rom: seq<byte>, page: seq<byte>, si: word): byte
    requires |rom| == |page| == 0x1000
  {
    if si < 0x1000 then rom[si] else if si < 0x2000 then page[si - 0x1000] else 0
  }

  /** What a copy from offset `si` of the ROM's segment loads, going around at its end. */
  function Around(rom: seq<byte>, page: seq<byte>, si: word, len: nat): (r: seq<byte>)
    requires |rom| == |page| == 0x1000
    ensures |r| == len
  {
    seq<byte>(len, j requires 0 <= j < len => SegmentByte(rom, page, Wrap(si + j)))
  }

  /** The bytes a read delivers. */
  function Delivered(d: seq<byte>, rom: seq<byte>, l: Lba, n: byte): (r: seq<byte>)
    requires Fits(|d|, l, n) && |rom| == 0x1000
    ensures |r| == 512 * n as int
  {
    if OverrunsWindow(l, n) then Around(rom, FirstBlock(d, l, n), 0x1000 + 512 * (l.lo % 8), 512 * n as int)
    else FlatRead(d, l, n)
  }

  /** Sector `s` of the ROM's segment. */
  function SegmentSector(rom: seq<byte>, page: seq<byte>, s: nat): seq<byte>
    requires |rom| == |page| == 0x1000
  {
    if s < 8 then SectorOf(rom, s) else if s < 16 then SectorOf(page, s - 8) else seq(512, _ => 0)
  }

  /** Sector `i` of an overrunning read: the sectors up to the end of the first block are the
      addressed ones; then come 112 of zeros, 8 of the ROM, and the first block from its start. */
  lemma OverrunDelivers(d: seq<byte>, rom: seq<byte>, l: Lba, n: byte, i: nat)
    requires Fits(|d|, l, n) && |rom| == 0x1000 && l.lo % 8 != 0 && n >= 128 && i < n
    ensures Delivered(d, rom, l, n)[512 * i..512 * i + 512]
         == SegmentSector(rom, FirstBlock(d, l, n), (8 + l.lo % 8 + i) % 128)
    ensures i < 8 - l.lo % 8 ==> Delivered(d, rom, l, n)[512 * i..512 * i + 512] == SectorOf(d, SectorAt(l, i))
  {
    AroundSector(rom, FirstBlock(d, l, n), 8 + l.lo % 8, 512 * n as int, i);
    if i < 8 - l.lo % 8 {
      FirstSectors(d, l, n, i);
    }
  }

  lemma AroundSector(rom: seq<byte>, page: seq<byte>, from: nat, len: nat, i: nat)
    requires |rom| == |page| == 0x1000 && from < 128 && 512 * i + 512 <= len
    ensures Around(rom, page, 512 * from, len)[512 * i..512 * i + 512] == SegmentSector(rom, page, (from + i) % 128)
  {
    var x, s := Around(rom, page, 512 * from, len)[512 * i..512 * i + 512], (from + i) % 128;
    var y := SegmentSector(rom, page, s);
    forall j | 0 <= j < 512 ensures x[j] == y[j] {
      SegmentOffset(from + i, j);
      assert 512 * from + (512 * i + j) == 512 * (from + i) + j;
      assert x[j] == SegmentByte(rom, page, 512 * s + j);
    }
    assert |x| == |y| == 512;
  }

  lemma SegmentOffset(q: nat, r: nat)
    requires r < 512
    ensures Wrap(512 * q + r) == 512 * (q % 128) + r
  {
    var a, s := q / 128, q % 128;
    assert 512 * q + r == a * 0x1_0000 + (512 * s + r);
    WrapIsMod(512 * q + r);
    DivModUnique(512 * q + r, a, 512 * s + r, 0x1_0000);
  }

  /** The two bytes of a word at an even offset are neighbours. */
  lemma AroundWord(si0: word, k: nat, si: word)
    requires si0 % 2 == 0 && si == Wrap(si0 + 2 * k)
    ensures si + 1 < 0x1_0000 && Wrap(si0 + (2 * k + 1)) == si + 1 && Wrap(si + 2) == Wrap(si0 + 2 * (k + 1))
  {
    WrapLowBits(si0 + 2 * k);
    WrapRoom(si0 + 2 * k, 1);
    WrapAdd(si0 + 2 * k, 2);
  }

  lemma FirstSectors(d: seq<byte>, l: Lba, n: byte, i: nat)
    requires Fits(|d|, l, n) && OverrunsWindow(l, n) && i < 8 - l.lo % 8
    ensures SectorOf(FirstBlock(d, l, n), l.lo % 8 + i) == SectorOf(d, SectorAt(l, i))
  {
    FirstBlockInImage(|d|, l, n);
    BlockSector(d, Linear(l) - l.lo % 8, l.lo % 8 + i);
    assert SectorAt(l, i) == Linear(l) + i;
  }

  lemma BlockSector(d: seq<byte>, block: nat, k: nat)
    requires 512 * block + 0x1000 <= |d| && k < 8
    ensures SectorOf(d[512 * block..512 * block + 0x1000], k) == SectorOf(d, block + k)
  {
    SliceOfSlice(d, 512 * block, 0x1000, 512 * k, 512);
  }

  lemma SliceOfSlice(d: seq<byte>, from: nat, len: nat, at: nat, n: nat)
    requires from + len <= |d| && at + n <= len
    ensures d[from..from + len][at..at + n] == d[from + at..from + at + n]
  {
    var x, y := d[from..from + len][at..at + n], d[from + at..from + at + n];
    assert |x| == |y| && forall j :: 0 <= j < n ==> x[j] == y[j];
  }

  /** How int 13h ends: chained to the BIOS, returned, or a write past the end of the window. */
  datatype Result = ToBios | Returned(regs: Regs, carry: bool) | Broke

  class Machine {
    const disk: array<byte>  // the image file
    const ram: array<byte>   // guest RAM
    const rom: array<byte>   // the option ROM's first page
    var selectedDiskLBA: Lba
    var updateDiskMapping: bool
    var window: Mapping
    var driveNumber: byte

    constructor (disk: array<byte>, ram: array<byte>, rom: array<byte>)
      ensures this.disk == disk && this.ram == ram && this.rom == rom
      ensures selectedDiskLBA == Lba(0, 0) && !updateDiskMapping && window == BootRom
    {
      this.disk, this.ram, this.rom := disk, ram, rom;
      selectedDiskLBA, updateDiskMapping, window := Lba(0, 0), false, BootRom;
      driveNumber := 0;
    }

    // -------------------------------------------------------------- host

    ghost predicate Apart() {
      disk != ram && rom != ram && rom != disk && rom.Length == 0x1000
    }

    /** At every boundary of the handler the window shows the selected, page-aligned sectors. */
    ghost predicate Coherent()
      reads this
    {
      && Apart()
      && selectedDiskLBA.lo % 8 == 0
      && !updateDiskMapping
      && window == DiskWindow(selectedDiskLBA)
    }

    function InWord(port: word): word
      reads this
    {
      if port % 4 < 2 then selectedDiskLBA.lo else selectedDiskLBA.hi
    }

    /** A 16-bit `out` to the disk ports, with the work done when it exits to the host. `running`
        is false when mmap refuses an offset that is not a multiple of the page size. */
    method OutWord(port: word, value: word) returns (running: bool)
      requires port in {0xD000, 0xD002, 0xD004} && !updateDiskMapping
      modifies `selectedDiskLBA, `updateDiskMapping, `window
      ensures port == 0xD000 ==> running && selectedDiskLBA == old(selectedDiskLBA).(lo := value)
      ensures port == 0xD002 ==> running && selectedDiskLBA == old(selectedDiskLBA).(hi := value)
      ensures port == 0xD004 ==> selectedDiskLBA == old(selectedDiskLBA)
                                 && (running <==> selectedDiskLBA.lo % 8 == 0)
      ensures running ==> !updateDiskMapping
      ensures window == if port == 0xD004 && running then DiskWindow(selectedDiskLBA) else old(window)
    {
      if port % 8 < 4 {
        if port % 4 == 0 {
          selectedDiskLBA := selectedDiskLBA.(lo := value);
        } else {
          selectedDiskLBA := selectedDiskLBA.(hi := value);
        }
      } else {
        updateDiskMapping := true;
      }
      if updateDiskMapping {
        PageAlignedExactly(selectedDiskLBA);
        if 512 * Linear(selectedDiskLBA) % 4096 != 0 {
          return false;
        }
        window := DiskWindow(selectedDiskLBA);
        updateDiskMapping := false;
      }
      return true;
    }

    /** The window's bytes from offset `si` of the ROM's segment are bytes of the image. */
    ghost predicate WindowHas(si: nat, len: nat)
      reads this
    {
      && 0x1000 <= si && si + len <= 0x2000
      && window.DiskWindow?
      && (len > 0 ==> 512 * Linear(window.base) + si - 0x1000 + len <= disk.Length)
    }

    // -------------------------------------------------------------- guest: choosing the window

    /** rom_init: hook the drive number and select sector zero. */
    method RomInit()
      requires Apart() && ram.Length > 0x475 && !updateDiskMapping
      modifies this, ram
      ensures Coherent() && selectedDiskLBA == Lba(0, 0)
      ensures driveNumber == (old(ram[0x475]) as int + 0x80) % 0x100
      ensures ram[..] == old(ram[..])[0x475 := (old(ram[0x475]) as int + 1) % 0x100]
    {
      driveNumber := (ram[DRIVE_COUNT] as int + 0x80) % 0x100;
      ram[DRIVE_COUNT] := (ram[DRIVE_COUNT] as int + 1) % 0x100;
      var up := OutWord(0xD000, 0);
      up := OutWord(0xD002, 0);
      up := OutWord(0xD004, 0);
      assert up;
    }

    /** Select the block cx:bx unless the ports already hold it. The shortcut is sound exactly
        when the window already shows what the ports hold. */
    method SelectWindow(bx: word, cx: word)
      requires bx % 8 == 0 && !updateDiskMapping
      modifies `selectedDiskLBA, `updateDiskMapping, `window
      ensures selectedDiskLBA == Lba(bx, cx) && !updateDiskMapping
      ensures window == if old(selectedDiskLBA) == Lba(bx, cx) then old(window) else DiskWindow(Lba(bx, cx))
    {
      var up;
      var ax := InWord(0xD000);
      if ax != bx {
        up := OutWord(0xD000, bx);
        up := OutWord(0xD002, cx);
        up := OutWord(0xD004, cx);
        assert up;
      } else {
        ax := InWord(0xD002);
        if ax != cx {
          up := OutWord(0xD002, cx);
          up := OutWord(0xD004, cx);
          assert up;
        }
      }
    }

    /** The next block: `add dx, 2` clears the carry that `adc ax, 0` was to add. */
    method IncrementLBA()
      requires Coherent()
      modifies `selectedDiskLBA, `updateDiskMapping, `window
      ensures Coherent()
      ensures selectedDiskLBA == Lba(Wrap(old(selectedDiskLBA).lo + 8), old(selectedDiskLBA).hi)
    {
      var dx: word := 0xD000;
      var ax: word := InWord(dx);
      ax := Wrap(ax + 8);
      var up := OutWord(dx, ax);
      var carry := (dx + 2) / 0x1_0000;
      dx := Wrap(dx + 2);
      ax := InWord(dx);
      ax := Wrap(ax + carry);
      up := OutWord(dx, ax);
      dx := dx + 2;
      up := OutWord(dx, ax);
      assert up;
    }

    // -------------------------------------------------------------- guest: rep movsw

    /** The store of one `movsw` to es:di: word `k` of the bytes `x`. */
    method StoreWord(es: word, di: word, low: byte, high: byte,
                     ghost was: seq<byte>, ghost di0: word, ghost x: seq<byte>, ghost k: nat)
      requires 2 * k + 2 <= |x| && low == x[2 * k] && high == x[2 * k + 1]
      requires InRam(|was|, es, di0, |x|) && (di0 % 2 == 0 || di0 + |x| <= 0x1_0000)
      requires di == Wrap(di0 + 2 * k) && ram[..] == Put(was, es, di0, x[..2 * k])
      modifies ram
      ensures ram[..] == Put(was, es, di0, x[..2 * (k + 1)]) && Wrap(di + 2) == Wrap(di0 + 2 * (k + 1))
    {
      PutWord(was, es, di0, x, k, di);
      ram[es * 16 + di] := low;
      ram[es * 16 + di + 1] := high;
    }

    /** `rep movsw` from the window to es:di. */
    method MoveIn(es: word, di0: word, si0: word, cx0: word, ghost x: seq<byte>, ghost at: nat) returns (di: word)
      requires disk != ram && WindowHas(si0, 2 * cx0) && InRam(ram.Length, es, di0, 2 * cx0)
      requires at == 512 * Linear(window.base) + si0 - 0x1000 && x == if cx0 == 0 then [] else disk[at..at + 2 * cx0]
      requires cx0 > 0 ==> di0 % 2 == 0 || di0 + 2 * cx0 <= 0x1_0000
      modifies ram
      ensures di == Wrap(di0 + 2 * cx0)
      ensures ram[..] == Put(old(ram[..]), es, di0, x)
    {
      var si: int, cx: int := si0, cx0;
      di := di0;
      var page := 512 * Linear(window.base);
      ghost var was, k := ram[..], 0;
      while cx != 0
        invariant 0 <= k && k + cx == cx0 && 0 <= cx
        invariant si == si0 + 2 * k && di == Wrap(di0 + 2 * k)
        invariant ram[..] == Put(was, es, di0, x[..2 * k])
        decreases cx
      {
        var from := page + si - 0x1000;
        StoreWord(es, di, disk[from], disk[from + 1], was, di0, x, k);
        si, di, cx, k := si + 2, Wrap(di + 2), cx - 1, k + 1;
      }
      assert x[..2 * k] == x;
    }

    /** A load from the ROM's segment; the emulator answers with zero where no slot is. */
    method LoadByte(si: word) returns (b: byte)
      requires rom.Length == 0x1000 && WindowHas(0x1000, 0x1000)
      ensures b == SegmentByte(rom[..], disk[512 * Linear(window.base)..512 * Linear(window.base) + 0x1000], si)
    {
      if si < 0x1000 {
        b := rom[si];
      } else if si < 0x2000 {
        b := disk[512 * Linear(window.base) + si - 0x1000];
      } else {
        b := 0;
      }
    }

    /** `rep movsw` to es:di from anywhere in the ROM's segment, around its end if need be. */
    method MoveAround(es: word, di0: word, si0: word, cx0: word, ghost x: seq<byte>) returns (di: word)
      requires Apart() && WindowHas(0x1000, 0x1000) && si0 % 2 == 0 && InRam(ram.Length, es, di0, 2 * cx0)
      requires x == Around(rom[..], disk[512 * Linear(window.base)..512 * Linear(window.base) + 0x1000], si0, 2 * cx0)
      requires cx0 > 0 ==> di0 % 2 == 0 || di0 + 2 * cx0 <= 0x1_0000
      modifies ram
      ensures di == Wrap(di0 + 2 * cx0)
      ensures ram[..] == Put(old(ram[..]), es, di0, x)
    {
      var si: int, cx: int := si0, cx0;
      di := di0;
      ghost var was, k := ram[..], 0;
      while cx != 0
        invariant 0 <= k && k + cx == cx0 && 0 <= cx
        invariant si == Wrap(si0 + 2 * k) && di == Wrap(di0 + 2 * k)
        invariant ram[..] == Put(was, es, di0, x[..2 * k])
        decreases cx
      {
        AroundWord(si0, k, si);
        var low := LoadByte(si);
        var high := LoadByte(si + 1);
        StoreWord(es, di, low, high, was, di0, x, k);
        si, di, cx, k := Wrap(si + 2), Wrap(di + 2), cx - 1, k + 1;
      }
      assert x[..2 * k] == x;
    }

    /** The store of one `movsw` to the window: word `k` of the bytes `x`. */
    method MoveWordOut(to: nat, low: byte, high: byte, ghost was: seq<byte>, ghost at: nat, ghost x: seq<byte>,
                       ghost k: nat)
      requires 2 * k + 2 <= |x| && low == x[2 * k] && high == x[2 * k + 1]
      requires at + |x| <= |was| == disk.Length && to == at + 2 * k && disk[..] == Splice(was, at, x[..2 * k])
      modifies disk
      ensures disk[..] == Splice(was, at, x[..2 * (k + 1)])
    {
      SpliceWord(was, at, x, k, to);
      disk[to] := low;
      disk[to + 1] := high;
    }

    /** `rep movsw` from ds:si to the window. */
    method MoveOut(ds: word, si0: word, di0: word, cx0: word, ghost x: seq<byte>, ghost at: nat) returns (si: word)
      requires disk != ram && WindowHas(di0, 2 * cx0) && InRam(ram.Length, ds, si0, 2 * cx0)
      requires x == Get(ram[..], ds, si0, 2 * cx0) && at == 512 * Linear(window.base) + di0 - 0x1000
      requires cx0 > 0 ==> si0 % 2 == 0 || si0 + 2 * cx0 <= 0x1_0000
      modifies disk
      ensures si == Wrap(si0 + 2 * cx0)
      ensures disk[..] == Splice(old(disk[..]), at, x)
    {
      var di: int, cx: int := di0, cx0;
      si := si0;
      var page := 512 * Linear(window.base);
      ghost var was, m, k := disk[..], ram[..], 0;
      while cx != 0
        invariant 0 <= k && k + cx == cx0 && 0 <= cx && m == ram[..]
        invariant di == di0 + 2 * k && si == Wrap(si0 + 2 * k)
        invariant disk[..] == Splice(was, at, x[..2 * k])
        decreases cx
      {
        GetWord(m, ds, si0, 2 * cx0, k, si);
        MoveWordOut(page + di - 0x1000, ram[ds * 16 + si], ram[ds * 16 + si + 1], was, at, x, k);
        di, si, cx, k := di + 2, Wrap(si + 2), cx - 1, k + 1;
      }
      assert x[..2 * k] == x;
    }

    // -------------------------------------------------------------- guest: int 13h AH=02, AH=03

    /** The window shows the block that holds sector `done` of a transfer from `l`. */
    ghost predicate Showing(l: Lba, done: nat)
      reads this
    {
      Coherent() && selectedDiskLBA == Lba(BlockOf(l, done), l.hi)
    }

    /** What the window shows at sector `offset` of the block is sector `done` of the transfer. */
    lemma ShowingBytes(l: Lba, done: nat, offset: nat, k: nat)
      requires Showing(l, done) && InBlock(l, done) == offset && offset + k <= 8
      requires k > 0 ==> 512 * (SectorAt(l, done) + k) <= disk.Length
      ensures WindowHas(0x1000 + offset * 512, 512 * k)
      ensures 512 * Linear(window.base) + 512 * offset == 512 * SectorAt(l, done)
    {
      assert Linear(window.base) + offset == SectorAt(l, done);
    }

    /** The first `done` sectors of a read of `n` have been delivered, and es:di is where the next
        ones go. */
    ghost predicate HasRead(was: seq<byte>, d: seq<byte>, es: word, bx: word, l: Lba, n: nat, done: nat, di: word)
      reads ram, disk
    {
      && Fits(|d|, l, n) && done <= n && d == disk[..]
      && BufferAt(|was|, es, bx, n, done, di)
      && ram[..] == Put(was, es, bx, FlatRead(d, l, done))
    }

    /** One copy of a read: `k` sectors from the block that is showing, starting `offset` in. */
    method ReadBlock(es: word, di0: word, offset: nat, k: nat,
                     ghost was: seq<byte>, ghost d: seq<byte>, ghost bx: word, ghost l: Lba, ghost n: nat,
                     ghost done: nat)
      returns (di: word)
      requires Showing(l, done) && InBlock(l, done) == offset && offset + k <= 8
      requires done + k <= n && HasRead(was, d, es, bx, l, n, done, di0)
      modifies ram
      ensures HasRead(was, d, es, bx, l, n, done + k, di)
    {
      BufferNext(|was|, es, bx, n, done, k, di0);
      BlockInImage(|d|, l, n, done, k);
      ReadStep(was, es, bx, d, l, n, done, k, di0);
      ShowingBytes(l, done, offset, k);
      ghost var a := SectorAt(l, done);
      assert ram.Length == |was|;
      di := MoveIn(es, di0, 0x1000 + offset * 512, k * 256, if k == 0 then [] else d[512 * a..512 * (a + k)], 512 * a);
    }

    /** The first `done` sectors of a write of `n` from the RAM bytes `r` are in the image. */
    ghost predicate HasWritten(was: seq<byte>, r: seq<byte>, ds: word, bx: word, l: Lba, n: nat, done: nat, si: word)
      reads ram, disk
    {
      && Fits(|was|, l, n) && done <= n <= 0x1_0000 && r == ram[..]
      && BufferAt(|r|, ds, bx, n, done, si) && InRam(|r|, ds, bx, 512 * n)
      && disk[..] == FlatWrite(was, l, Get(r, ds, bx, 512 * n), done)
    }

    /** One copy of a write: `k` sectors into the block that is showing, starting `offset` in. */
    method WriteBlock(ds: word, si0: word, offset: nat, k: nat,
                      ghost was: seq<byte>, ghost r: seq<byte>, ghost bx: word, ghost l: Lba, ghost n: nat,
                      ghost done: nat)
      returns (si: word)
      requires Showing(l, done) && InBlock(l, done) == offset && offset + k <= 8
      requires done + k <= n && HasWritten(was, r, ds, bx, l, n, done, si0)
      modifies disk
      ensures HasWritten(was, r, ds, bx, l, n, done + k, si)
    {
      BufferNext(|r|, ds, bx, n, done, k, si0);
      BlockInImage(|was|, l, n, done, k);
      WriteStep(r, ds, bx, was, l, n, done, k, si0);
      assert disk.Length == |was|;
      ShowingBytes(l, done, offset, k);
      si := MoveOut(ds, si0, 0x1000 + offset * 512, k * 256, Get(r, ds, si0, 512 * k), 512 * SectorAt(l, done));
    }

    /** The first copy of an unaligned read that stays in the window. */
    method ReadHead(es: word, di0: word, n: byte,
                    ghost was: seq<byte>, ghost d: seq<byte>, ghost bx: word, l: Lba)
      returns (di: word, bl: byte)
      requires Showing(l, 0) && l.lo % 8 != 0 && n <= 127 && HasRead(was, d, es, bx, l, n, 0, di0)
      modifies `selectedDiskLBA, `updateDiskMapping, `window, ram
      ensures Coherent() && bl == n - HeadSectors(l.lo % 8, n) && HasRead(was, d, es, bx, l, n, n - bl, di)
      ensures bl > 0 ==> InBlock(l, n - bl) == 0 && Showing(l, n - bl)
    {
      var offset := l.lo % 8;
      HeadFitsExactly(offset, n);
      var ch := HeadSectors(offset, n);
      bl := n - ch;
      di := ReadBlock(es, di0, offset, ch, was, d, bx, l, n, 0);
      if bl != 0 {
        NextBlock(l, 0, ch);
        IncrementLBA();
      }
    }

    /** One round of the whole-block loop of a read. */
    method ReadFullBlock(es: word, di0: word, bl0: byte,
                         ghost was: seq<byte>, ghost d: seq<byte>, ghost bx: word, ghost l: Lba, ghost n: nat)
      returns (di: word, bl: byte)
      requires 8 <= bl0 <= n && InBlock(l, n - bl0) == 0 && Showing(l, n - bl0)
      requires HasRead(was, d, es, bx, l, n, n - bl0, di0)
      modifies `selectedDiskLBA, `updateDiskMapping, `window, ram
      ensures bl == bl0 - 8 && InBlock(l, n - bl) == 0 && Coherent() && (bl > 0 ==> Showing(l, n - bl))
      ensures HasRead(was, d, es, bx, l, n, n - bl, di)
    {
      di := ReadBlock(es, di0, 0, 8, was, d, bx, l, n, n - bl0);
      NextBlock(l, n - bl0, 8);
      bl := bl0 - 8;
      if bl != 0 {
        IncrementLBA();
      }
    }

    /** The whole-block loop of a read, from a block boundary on; the remaining count in BL is what
        makes it end. It has finished when nothing remains after a block. */
    method ReadWholeBlocks(es: word, di0: word, bl0: byte,
                           ghost was: seq<byte>, ghost d: seq<byte>, ghost bx: word, ghost l: Lba, ghost n: nat)
      returns (di: word, bl: byte, finished: bool)
      requires bl0 <= n && InBlock(l, n - bl0) == 0 && Showing(l, n - bl0)
      requires HasRead(was, d, es, bx, l, n, n - bl0, di0)
      modifies `selectedDiskLBA, `updateDiskMapping, `window, ram
      ensures bl < 8 && bl <= bl0 && InBlock(l, n - bl) == 0 && HasRead(was, d, es, bx, l, n, n - bl, di)
      ensures if finished then bl == 0 && Coherent() else Showing(l, n - bl)
    {
      di, bl := di0, bl0;
      while bl / 8 != 0
        invariant bl <= bl0 && InBlock(l, n - bl) == 0 && Showing(l, n - bl)
        invariant HasRead(was, d, es, bx, l, n, n - bl, di)
        decreases bl
      {
        di, bl := ReadFullBlock(es, di, bl, was, d, bx, l, n);
        if bl == 0 {
          return di, bl, true;
        }
      }
      finished := false;
    }

    /** The whole-block loop and the last copy of a read. */
    method ReadBlocks(es: word, di0: word, bl0: byte,
                      ghost was: seq<byte>, ghost d: seq<byte>, ghost bx: word, ghost l: Lba, ghost n: nat)
      returns (di: word, bl: byte)
      requires bl0 <= n && InBlock(l, n - bl0) == 0 && Showing(l, n - bl0)
      requires HasRead(was, d, es, bx, l, n, n - bl0, di0)
      modifies `selectedDiskLBA, `updateDiskMapping, `window, ram
      ensures Coherent() && HasRead(was, d, es, bx, l, n, n, di)
      ensures bl < 8 && bl <= bl0 && InBlock(l, n - bl) == 0
    {
      var finished;
      di, bl, finished := ReadWholeBlocks(es, di0, bl0, was, d, bx, l, n);
      if !finished {
        di := ReadBlock(es, di, 0, bl, was, d, bx, l, n, n - bl);
      }
    }

    /** The first copy of an overrunning read. */
    method ReadAround(l: Lba, n: byte, es: word, bx: word)
      requires Showing(l, 0) && TransferOk(l, n, es, bx) && OverrunsWindow(l, n)
      modifies ram
      ensures ram[..] == Put(old(ram[..]), es, bx, Delivered(disk[..], rom[..], l, n))
    {
      FirstBlockInImage(disk.Length, l, n);
      BufferInRam(ram.Length, es, bx, 512 * n as int);
      var di := MoveAround(es, bx, 0x1000 + l.lo % 8 * 512, n as int * 256, Delivered(disk[..], rom[..], l, n));
    }

    /** AH=02, read sectors, from the sector number on: es:bx receives exactly the addressed
        sectors, in order, unless the read overruns the window. */
    method ReadSectors(l: Lba, n: byte, es: word, bx: word) returns (bl: byte)
      requires Coherent() && TransferOk(l, n, es, bx)
      modifies `selectedDiskLBA, `updateDiskMapping, `window, ram
      ensures Coherent()
      ensures ram[..] == Put(old(ram[..]), es, bx, Delivered(old(disk[..]), old(rom[..]), l, n))
      ensures l.lo % 8 == 0 || n <= 127 ==> ram[..] == Put(old(ram[..]), es, bx, FlatRead(old(disk[..]), l, n))
      ensures bl == Residue(l, n)
    {
      bl := n;
      var offset, di := l.lo % 8, bx;
      ghost var was, d := ram[..], disk[..];
      assert FlatRead(d, l, 0) == [] && Put(was, es, bx, []) == was;
      SelectWindow(l.lo - offset, l.hi);
      if offset != 0 {
        HeadFitsExactly(offset, n);
        if offset + HeadSectors(offset, bl) as int > 8 {
          ReadAround(l, n, es, bx);
          return 0;
        }
        di, bl := ReadHead(es, di, n, was, d, bx, l);
        if bl == 0 {
          return;
        }
      }
      di, bl := ReadBlocks(es, di, bl, was, d, bx, l, n);
      ResidueIs(l, n, bl);
    }

    /** The first copy of an unaligned write that stays in the window. */
    method WriteHead(ds: word, si0: word, n: byte,
                     ghost was: seq<byte>, ghost r: seq<byte>, ghost bx: word, l: Lba)
      returns (si: word, bl: byte)
      requires Showing(l, 0) && l.lo % 8 != 0 && n <= 127 && HasWritten(was, r, ds, bx, l, n, 0, si0)
      modifies `selectedDiskLBA, `updateDiskMapping, `window, disk
      ensures Coherent() && bl == n - HeadSectors(l.lo % 8, n) && HasWritten(was, r, ds, bx, l, n, n - bl, si)
      ensures bl > 0 ==> InBlock(l, n - bl) == 0 && Showing(l, n - bl)
    {
      var offset := l.lo % 8;
      HeadFitsExactly(offset, n);
      var ch := HeadSectors(offset, n);
      bl := n - ch;
      si := WriteBlock(ds, si0, offset, ch, was, r, bx, l, n, 0);
      if bl != 0 {
        NextBlock(l, 0, ch);
        IncrementLBA();
      }
    }

    /** One round of the whole-block loop of a write. */
    method WriteFullBlock(ds: word, si0: word, bl0: byte,
                          ghost was: seq<byte>, ghost r: seq<byte>, ghost bx: word, ghost l: Lba, ghost n: nat)
      returns (si: word, bl: byte)
      requires 8 <= bl0 <= n && InBlock(l, n - bl0) == 0 && Showing(l, n - bl0)
      requires HasWritten(was, r, ds, bx, l, n, n - bl0, si0)
      modifies `selectedDiskLBA, `updateDiskMapping, `window, disk
      ensures bl == bl0 - 8 && InBlock(l, n - bl) == 0 && Coherent() && (bl > 0 ==> Showing(l, n - bl))
      ensures HasWritten(was, r, ds, bx, l, n, n - bl, si)
    {
      si := WriteBlock(ds, si0, 0, 8, was, r, bx, l, n, n - bl0);
      NextBlock(l, n - bl0, 8);
      bl := bl0 - 8;
      if bl != 0 {
        IncrementLBA();
      }
    }

    /** The whole-block loop of a write. */
    method WriteWholeBlocks(ds: word, si0: word, bl0: byte,
                            ghost was: seq<byte>, ghost r: seq<byte>, ghost bx: word, ghost l: Lba, ghost n: nat)
      returns (si: word, bl: byte, finished: bool)
      requires bl0 <= n && InBlock(l, n - bl0) == 0 && Showing(l, n - bl0)
      requires HasWritten(was, r, ds, bx, l, n, n - bl0, si0)
      modifies `selectedDiskLBA, `updateDiskMapping, `window, disk
      ensures bl < 8 && bl <= bl0 && InBlock(l, n - bl) == 0 && HasWritten(was, r, ds, bx, l, n, n - bl, si)
      ensures if finished then bl == 0 && Coherent() else Showing(l, n - bl)
    {
      si, bl := si0, bl0;
      while bl / 8 != 0
        invariant bl <= bl0 && InBlock(l, n - bl) == 0 && Showing(l, n - bl)
        invariant HasWritten(was, r, ds, bx, l, n, n - bl, si)
        decreases bl
      {
        si, bl := WriteFullBlock(ds, si, bl, was, r, bx, l, n);
        if bl == 0 {
          return si, bl, true;
        }
      }
      finished := false;
    }

    /** The whole-block loop and the last copy of a write. */
    method WriteBlocks(ds: word, si0: word, bl0: byte,
                       ghost was: seq<byte>, ghost r: seq<byte>, ghost bx: word, ghost l: Lba, ghost n: nat)
      returns (si: word)
      requires bl0 <= n && InBlock(l, n - bl0) == 0 && Showing(l, n - bl0)
      requires HasWritten(was, r, ds, bx, l, n, n - bl0, si0)
      modifies `selectedDiskLBA, `updateDiskMapping, `window, disk
      ensures Coherent() && HasWritten(was, r, ds, bx, l, n, n, si)
    {
      var bl, finished;
      si, bl, finished := WriteWholeBlocks(ds, si0, bl0, was, r, bx, l, n);
      if !finished {
        si := WriteBlock(ds, si, 0, bl, was, r, bx, l, n, n - bl);
      }
    }

    /** AH=03, write sectors, from the sector number on: exactly the addressed sectors change, each
        to its piece of es:bx. */
    method WriteSectors(l: Lba, n: byte, es: word, bx: word) returns (out: Outcome)
      requires Coherent() && TransferOk(l, n, es, bx)
      modifies `selectedDiskLBA, `updateDiskMapping, `window, disk
      ensures Coherent()
      ensures out.Overrun? <==> l.lo % 8 != 0 && n >= 128
      ensures out.Overrun? ==> disk[..] == old(disk[..])
      ensures InRam(ram.Length, es, bx, 512 * n as int)
      ensures out.Finished? ==>
        disk[..] == FlatWrite(old(disk[..]), l, old(Get(ram[..], es, bx, 512 * n as int)), n)
    {
      var bl, offset, si := n, l.lo % 8, bx;
      ghost var r, was, len := ram[..], disk[..], 512 * n as int;
      BufferInRam(|r|, es, bx, len);
      assert FlatWrite(was, l, Get(r, es, bx, len), 0) == was;
      SelectWindow(l.lo - offset, l.hi);
      if offset != 0 {
        HeadFitsExactly(offset, n);
        if offset + HeadSectors(offset, bl) as int > 8 {
          return Overrun(offset, HeadSectors(offset, bl));
        }
        si, bl := WriteHead(es, si, n, was, r, bx, l);
        if bl == 0 {
          return Finished;
        }
      }
      si := WriteBlocks(es, si, bl, was, r, bx, l, n);
      return Finished;
    }

    // -------------------------------------------------------------- guest: int 13h

    /** The handler's dispatch. Requests it does not serve go to the BIOS untouched; served ones
        return with CF clear, AH zero and CX and DX kept, but BX is not restored. */
    method Int13h(r: Regs) returns (res: Result)
      requires Coherent()
      requires r.Ours(driveNumber) && r.ax / 0x100 != 8 ==> TransferOk(r.Start(), r.Count(), r.es, r.bx)
      modifies `selectedDiskLBA, `updateDiskMapping, `window, ram, disk
      ensures Coherent()
      ensures res.ToBios? <==> !r.Ours(driveNumber)
      ensures res.Broke? <==>
        r.Ours(driveNumber) && r.ax / 0x100 == 3 && r.Start().lo % 8 != 0 && r.Count() >= 128
      ensures res.Returned? ==> res.regs.ax == r.ax % 0x100 && res.regs.es == r.es && !res.carry
      ensures res.Returned? && r.ax / 0x100 == 2 ==>
        ram[..] == Put(old(ram[..]), r.es, r.bx, Delivered(old(disk[..]), old(rom[..]), r.Start(), r.Count()))
        && (res.regs.cx, res.regs.dx, res.regs.bx) == (r.cx, r.dx, 0x200 + Residue(r.Start(), r.Count()))
      ensures res.Returned? && r.ax / 0x100 == 3 ==>
        InRam(ram.Length, r.es, r.bx, 512 * r.Count() as int)
        && disk[..] == FlatWrite(old(disk[..]), r.Start(),
                                 old(Get(ram[..], r.es, r.bx, 512 * r.Count() as int)), r.Count())
        && (res.regs.cx, res.regs.dx, res.regs.bx) == (r.cx, r.dx, 0xC800)
      ensures res.Returned? && r.ax / 0x100 == 8 ==>
        (res.regs.cx, res.regs.dx, res.regs.bx) == (0x073F, 0xFE01, r.bx)
      ensures !(res.Returned? && r.ax / 0x100 == 2) ==> ram[..] == old(ram[..])
      ensures !(res.Returned? && r.ax / 0x100 == 3) ==> disk[..] == old(disk[..])
    {
      var ah, al := r.ax / 0x100, r.ax % 0x100;
      if ah == 0 {
        return ToBios;
      } else if r.dx % 0x100 != driveNumber {
        return ToBios;
      } else if ah == 8 {
        return Returned(r.(ax := al, cx := GEOMETRY_CX, dx := GEOMETRY_DX), false);
      } else if ah == 2 {
        var bl := ReadSectors(r.Start(), al, r.es, r.bx);
        return Returned(r.(ax := al, bx := 0x200 + bl as int), false);
      } else if ah == 3 {
        var out := WriteSectors(r.Start(), al, r.es, r.bx);
        return if out.Overrun? then Broke else Returned(r.(ax := al, bx := ROM_SEGMENT), false);
      } else {
        return ToBios;
      }
    }

    /** What a caller must see to: the sectors are in the image, the buffer is in RAM. */
    ghost predicate TransferOk(l: Lba, n: byte, es: word, bx: word) {
      Fits(disk.Length, l, n) && BufferOk(ram.Length, es, bx, 512 * n as int)
    }
  }
}
