/**
 The disk driver's window and the emulator's memory slot 7 are one thing: what the handler's model
 says the window shows is what the guest-physical addresses reach.
 */
module GuestView {
  import opened Words
  import opened FlatDisk
  import opened Chs
  import opened VirtualDisk
  import opened SlotMap
  import opened Emulator

  function SlotOf(w: Mapping): Region {
    match w
    case BootRom => BOOT_ROM
    case DiskWindow(base) => DiskRegion(Linear(base))
  }

  ghost predicate Agree(m: Machine, s: Sys)
    reads m
  {
    Valid(s) && s.slots[7] == SlotOf(m.window)
  }

  lemma StartAgrees(m: Machine)
    requires m.window == BootRom
    ensures Agree(m, START)
  {
  }

  /** A write to a disk port, through its handler and the rest of the exit: the window and the slot
      change together, and the emulator exits exactly on a misaligned selection. */
  method OutToDisk(m: Machine, loop: RunLoop, port: word, value: word) returns (running: bool)
    requires Agree(m, loop.System()) && port in {0xD000, 0xD002, 0xD004} && !m.updateDiskMapping
    modifies m`selectedDiskLBA, m`updateDiskMapping, m`window, loop`slots, loop`lastA20Register
    ensures running <==> port != 0xD004 || old(m.selectedDiskLBA).lo % 8 == 0
    ensures running ==> Agree(m, loop.System()) && !m.updateDiskMapping
    ensures running && port == 0xD004 ==> m.window == DiskWindow(m.selectedDiskLBA)
  {
    ghost var s := loop.System();
    var up := m.OutWord(port, value);
    ghost var e := IoExit(s.a20, if port == 0xD004 then Selected(Linear(m.selectedDiskLBA)) else Unselected);
    RequestsCleanExactly(s, e);
    StepKeepsValid(s, e);
    IoExitSlots(s, s.a20, e.select);
    PageAlignedExactly(m.selectedDiskLBA);
    running := loop.AfterPortAccess(port == 0xD004, Linear(m.selectedDiskLBA));
    assert running == up;
  }

  /** At every boundary of the handler the page at 0xC9000 is the selected eight sectors. */
  lemma WindowIsSelection(m: Machine, s: Sys, k: nat)
    requires m.Coherent() && Agree(m, s) && k < 0x1000
    ensures Lookup(s.slots, 0xC9000 + k, 0) == At(DiskImage, 512 * Linear(m.selectedDiskLBA) + k)
  {
    SegmentPlaces(s, 0x1000 + k);
  }

  /** What a load from a place gives; where no slot is the emulator answers with zero. */
  function ByteAt(m: Machine, place: Place): byte
    reads m.rom, m.disk
  {
    match place
    case At(OptionRom, o) => if o < m.rom.Length then m.rom[o] else 0
    case At(DiskImage, o) => if o < m.disk.Length then m.disk[o] else 0
    case _ => 0
  }

  /** The bytes an overrunning read loads are those the slots give. */
  lemma SegmentByteIsLookup(m: Machine, s: Sys, si: word)
    requires m.Coherent() && Agree(m, s) && m.WindowHas(0x1000, 0x1000)
    ensures var page := 512 * Linear(m.selectedDiskLBA);
      SegmentByte(m.rom[..], m.disk[page..page + 0x1000], si) == ByteAt(m, Lookup(s.slots, 0xC8000 + si, 0))
  {
    SegmentPlaces(s, si);
  }
}
