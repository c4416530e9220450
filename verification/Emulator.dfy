/** The emulator's run loop: what it does after an exit for a port access and for a flash access. */
module Emulator {
  import opened Words
  import opened Flash
  import opened SlotMap

  class RunLoop {
    const flashMemory: array<byte>
    var flashState: State
    var a20register: byte
    var lastA20Register: byte
    var slots: Slots

    ghost predicate Sized() {
      flashMemory.Length == SIZE
    }

    function System(): Sys
      reads this
    {
      Sys(slots, a20register, lastA20Register, flashState)
    }

    constructor (flashMemory: array<byte>)
      requires flashMemory.Length == SIZE
      ensures this.flashMemory == flashMemory && Sized() && System() == SlotMap.START
    {
      this.flashMemory := flashMemory;
      flashState, a20register, lastA20Register, slots := Reading, 2, 2, BOOT;
    }

    /** KVM_SET_USER_MEMORY_REGION; a size of zero removes the slot. */
    method SetUserMemoryRegion(slot: nat, region: Region) returns (ok: bool)
      modifies `slots
      ensures var op := if region.size == 0 then Unmap(slot) else Map(slot, region);
        && (ok <==> Clean(old(slots), op))
        && slots == if ok then Do(old(slots), op) else old(slots)
    {
      if region.size == 0 {
        ok := slot in slots;
      } else {
        ok := forall i :: i in slots && i != slot ==> Apart(slots[i], region);
      }
      if ok {
        slots := if region.size == 0 then slots - {slot} else slots[slot := region];
      }
    }

    /** The rest of an exit for a port access, after the port's handler has run. `running` is false
        when KVM refuses a request or mmap an offset that is not page-aligned. */
    method AfterPortAccess(updateDiskMapping: bool, selectedDiskLBA: nat) returns (running: bool)
      modifies `slots, `lastA20Register
      ensures var e := IoExit(old(a20register), if updateDiskMapping then Selected(selectedDiskLBA) else Unselected);
        && (running <==> AllClean(old(slots), Ops(old(System()), e))
                         && (updateDiskMapping ==> 512 * selectedDiskLBA % 4096 == 0))
        && (running ==> System() == Step(old(System()), e))
    {
      ghost var x := A20Ops(lastA20Register, a20register);
      DoAppend(slots, x, DiskOps(if updateDiskMapping then Selected(selectedDiskLBA) else Unselected));
      running := AfterA20();
      if running && updateDiskMapping {
        DoPair(slots, Unmap(7), Map(7, DiskRegion(selectedDiskLBA)));
        running := SetUserMemoryRegion(7, Region(0, 0, DiskImage, 0));
        if !running || 512 * selectedDiskLBA % 4096 != 0 {
          return false;
        }
        running := SetUserMemoryRegion(7, DiskRegion(selectedDiskLBA));
      }
    }

    /** The wrap slot is brought in line with bit 1 of the A20 register. */
    method AfterA20() returns (running: bool)
      modifies `slots, `lastA20Register
      ensures var x := A20Ops(old(lastA20Register), a20register);
        && (running <==> AllClean(old(slots), x)) && (running ==> slots == DoAll(old(slots), x))
      ensures running ==>
        lastA20Register == (if Bit1(old(lastA20Register)) == Bit1(a20register) then old(lastA20Register)
                            else a20register)
    {
      running := true;
      DoPair(slots, if Bit1(a20register) then Unmap(3) else Map(3, RAM_WRAP), Unmap(7));
      if lastA20Register / 2 % 2 != a20register / 2 % 2 {
        if a20register / 2 % 2 == 1 {
          running := SetUserMemoryRegion(3, Region(0, 0, Ram, 0));
        } else {
          running := SetUserMemoryRegion(3, RAM_WRAP);
        }
        if !running {
          return;
        }
        lastA20Register := a20register;
      }
    }

    /** The A20 port's handler, and the exit it is part of. */
    method WriteA20(value: byte) returns (running: bool)
      modifies `a20register, `slots, `lastA20Register
      ensures running <==> AllClean(old(slots), Ops(old(System()), IoExit(value, Unselected)))
      ensures running ==> System() == Step(old(System()), IoExit(value, Unselected))
    {
      a20register := value;
      running := AfterPortAccess(false, 0);
    }

    /** memset of part of the flash memory to FF. */
    method Fill(from: nat, length: nat)
      requires Sized() && from + length <= SIZE
      modifies flashMemory
      ensures forall p :: 0 <= p < SIZE ==>
        flashMemory[p] == if from <= p < from + length then 0xFF else old(flashMemory[p])
    {
      for i := from to from + length
        invariant forall p :: 0 <= p < SIZE ==>
          flashMemory[p] == if from <= p < i then 0xFF else old(flashMemory[p])
      {
        flashMemory[i] := 0xFF;
      }
    }

    /** A write to the chip; `running` is false when the emulator gives up, on an unknown sequence or
        because KVM refuses to remove the flash slots. */
    method WriteFlash(at: offset, command: byte) returns (running: bool)
      requires Sized()
      modifies `flashState, `slots, flashMemory
      ensures running <==> React(old(flashState), Write(at, command)).Next?
                           && AllClean(old(slots), FlashOps(old(flashState), Write(at, command)))
      ensures running ==>
        var o := React(old(flashState), Write(at, command));
        flashState == o.state && flashMemory[..] == Apply(old(flashMemory[..]), o.command)
        && slots == DoAll(old(slots), FlashOps(old(flashState), Write(at, command)))
      ensures !running ==> flashMemory[..] == old(flashMemory[..])
    {
      var low, unmapFlash := at % 0x800, false;
      ghost var was := flashMemory[..];
      if flashState == Program {
        flashMemory[at] := command;
        flashState := Reading;
      } else if command == 0xF0 {
        flashState := Reading;
      } else if flashState == Reading && low == 0x555 && command == 0xAA {
        flashState := CommandByte1;
      } else if flashState == CommandByte1 && low == 0x2AA && command == 0x55 {
        flashState := CommandByte2;
      } else if flashState == CommandByte2 && low == 0x555 && command == 0x80 {
        flashState := CommandByte3;
      } else if flashState == CommandByte3 && low == 0x555 && command == 0xAA {
        flashState := CommandByte4;
      } else if flashState == CommandByte4 && low == 0x2AA && command == 0x55 {
        flashState := CommandByte5;
      } else if flashState == CommandByte2 && low == 0x555 && command == 0xA0 {
        flashState := Program;
      } else if flashState == CommandByte2 && low == 0x555 && command == 0x90 {
        flashState := ProductIdentification;
        unmapFlash := true;
      } else if flashState == CommandByte5 && command == 0x30 {
        Fill(at / 0x1_0000 * 0x1_0000, 0x1_0000);
        assert flashMemory[..] == Apply(was, EraseSector(at / 0x1_0000 * 0x1_0000));
        flashState := Reading;
      } else if flashState == CommandByte5 && low == 0x555 && command == 0x10 {
        Fill(0, 0x8_0000);
        assert flashMemory[..] == Apply(was, EraseChip);
        flashState := Reading;
      } else {
        flashState := Reading;
        return false;
      }
      if unmapFlash {
        DoPair(slots, Unmap(4), Unmap(5));
        running := SetUserMemoryRegion(4, Region(0, 0, FlashMemory, 0));
        if running {
          running := SetUserMemoryRegion(5, Region(0, 0, FlashMemory, 0));
        }
        return running;
      }
      return true;
    }

    /** A read of the chip; only a product identification read supplies the value. */
    method ReadFlash(at: offset, untouched: byte) returns (running: bool, value: byte)
      modifies `flashState, `slots
      ensures value == LoadValue(old(flashState), at, untouched)
      ensures running <==> AllClean(old(slots), FlashOps(old(flashState), Load(at)))
      ensures running ==> flashState == Reading && slots == DoAll(old(slots), FlashOps(old(flashState), Load(at)))
    {
      var mapFlash := false;
      running, value := true, untouched;
      if flashState == ProductIdentification {
        mapFlash := true;
        value := if at % 2 == 1 then 0xA4 else 0x01;
      }
      flashState := Reading;
      if mapFlash {
        DoPair(slots, Map(4, FLASH), Map(5, FLASH_ALIAS));
        running := SetUserMemoryRegion(4, FLASH);
        if running {
          running := SetUserMemoryRegion(5, FLASH_ALIAS);
        }
      }
    }

    /** An exit for a memory access outside the mapped slots. `guardEnd` is the upper bound the code
        tests the address against before it treats the access as one to the flash chip. */
    method OnMmio(guardEnd: nat, phys: nat, a: Access, untouched: byte) returns (running: bool, value: byte)
      requires Sized() && a.at == ChipOffset(phys)
      modifies `flashState, `slots, flashMemory
      ensures var flash, e := 0x340_0000 <= phys < guardEnd, FlashExit(a);
        && (running <==> !flash || (Survived(old(System()), e) && AllClean(old(slots), Ops(old(System()), e))))
        && (running ==> System() == (if flash then Step(old(System()), e) else old(System())))
        && (running && flash ==> flashMemory[..] == Apply(old(flashMemory[..]), React(old(flashState), a).command))
        && (!flash ==> flashMemory[..] == old(flashMemory[..]) && value == if a.Load? then 0 else untouched)
        && (flash && a.Load? ==> value == LoadValue(old(flashState), a.at, untouched))
    {
      running, value := true, untouched;
      if 0x340_0000 <= phys < guardEnd {
        match a
        case Write(at, data) => running := WriteFlash(at, data);
        case Load(at) => running, value := ReadFlash(at, untouched);
      } else if a.Load? {
        value := 0;
      }
    }
  }

  /** The guard admits the whole aperture only with an upper bound of at least 0x3500000; with
      0x350000, which the code has, it admits nothing. */
  lemma GuardAdmitsExactly(guardEnd: nat)
    ensures (forall phys: nat :: InAperture(phys) ==> 0x340_0000 <= phys < guardEnd) <==> 0x350_0000 <= guardEnd
    ensures (forall phys: nat :: InAperture(phys) ==> !(0x340_0000 <= phys < guardEnd)) <==> guardEnd <= 0x340_0000
  {
    assert InAperture(0x34F_FFFF) && InAperture(0x340_0000);
  }
}
