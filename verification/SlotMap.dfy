/**
 The guest-physical memory slots and how runs of A20, disk-window and flash steps change them.
 Slot numbers, addresses and sizes are those the emulator hands to KVM.
 */
module SlotMap {
  import opened Words
  import opened Flash

  datatype Backing = Ram | FlashMemory | OptionRom | DiskImage

  /** `size` bytes at guest-physical `base`, backed from `start` of the host memory. */
  datatype Region = Region(base: nat, size: nat, backing: Backing, start: nat)

  type Slots = map<nat, Region>

  const RAM_WRAP: Region := Region(0x10_0000, 0x1_0000, Ram, 0)
  const FLASH: Region := Region(0x340_0000, 0x8_0000, FlashMemory, 0)
  const FLASH_ALIAS: Region := Region(0x348_0000, 0x8_0000, FlashMemory, 0)
  const BOOT_ROM: Region := Region(0xC9000, 0x1000, OptionRom, 0x1000)

  function DiskRegion(lba: nat): Region {
    Region(0xC9000, 0x1000, DiskImage, 512 * lba)
  }

  /** The slots that never move. */
  function Home(slot: nat): Region
    requires slot in {0, 1, 2, 4, 5, 6}
  {
    match slot
    case 0 => Region(0, 0x7_0000, Ram, 0)
    case 1 => Region(0xE0000, 0x1_0000, FlashMemory, 0x6_0000)
    case 2 => Region(0xF0000, 0x1_0000, FlashMemory, 0x7_0000)
    case 4 => FLASH
    case 5 => FLASH_ALIAS
    case _ => Region(0xC8000, 0x1000, OptionRom, 0)
  }

  const BOOT: Slots := map[
    0 := Home(0), 1 := Home(1), 2 := Home(2), 4 := FLASH, 5 := FLASH_ALIAS, 6 := Home(6), 7 := BOOT_ROM]

  datatype Op = Map(slot: nat, region: Region) | Unmap(slot: nat)

  function Do(m: Slots, op: Op): Slots {
    match op
    case Map(slot, region) => m[slot := region]
    case Unmap(slot) => m - {slot}
  }

  function DoAll(m: Slots, ops: seq<Op>): Slots
    decreases |ops|
  {
    if ops == [] then m else DoAll(Do(m, ops[0]), ops[1..])
  }

  predicate Apart(a: Region, b: Region) {
    a.base + a.size <= b.base || b.base + b.size <= a.base
  }

  predicate Disjoint(m: Slots) {
    forall i, j :: i in m && j in m && i != j ==> Apart(m[i], m[j])
  }

  /** A map that touches no other live slot, an unmap of a live one: what KVM accepts (the emulator
      never maps a live slot to anything else). */
  predicate Clean(m: Slots, op: Op) {
    match op
    case Map(slot, region) => forall i :: i in m && i != slot ==> Apart(m[i], region)
    case Unmap(slot) => slot in m
  }

  predicate AllClean(m: Slots, ops: seq<Op>)
    decreases |ops|
  {
    ops == [] || (Clean(m, ops[0]) && AllClean(Do(m, ops[0]), ops[1..]))
  }

  // ---------------------------------------------------------------- steps

  datatype Sys = Sys(slots: Slots, a20: byte, lastA20: byte, flash: State)

  const START: Sys := Sys(BOOT, 2, 2, Reading)

  datatype Selection = Unselected | Selected(lba: nat)

  /** An exit for a port access, after which the A20 register holds `a20` and the disk window may
      have been asked for; or an access to the flash aperture. */
  datatype Event = IoExit(a20: byte, select: Selection) | FlashExit(a: Access)

  predicate Bit1(b: byte) {
    b / 2 % 2 == 1
  }

  function A20Ops(last: byte, now: byte): seq<Op> {
    if Bit1(last) == Bit1(now) then [] else [if Bit1(now) then Unmap(3) else Map(3, RAM_WRAP)]
  }

  function DiskOps(select: Selection): seq<Op> {
    match select
    case Unselected => []
    case Selected(lba) => [Unmap(7), Map(7, DiskRegion(lba))]
  }

  function FlashOps(s: State, a: Access): seq<Op> {
    if a.Load? && s == ProductIdentification then [Map(4, FLASH), Map(5, FLASH_ALIAS)]
    else if React(s, a) == Next(ProductIdentification, Keep) then [Unmap(4), Unmap(5)]
    else []
  }

  function Ops(s: Sys, e: Event): seq<Op> {
    match e
    case IoExit(a20, select) => A20Ops(s.lastA20, a20) + DiskOps(select)
    case FlashExit(a) => FlashOps(s.flash, a)
  }

  predicate Survived(s: Sys, e: Event) {
    e.FlashExit? ==> React(s.flash, e.a).Next?
  }

  function Step(s: Sys, e: Event): Sys
    requires Survived(s, e)
  {
    match e
    case IoExit(a20, _) =>
      Sys(DoAll(s.slots, Ops(s, e)), a20, if Bit1(s.lastA20) == Bit1(a20) then s.lastA20 else a20, s.flash)
    case FlashExit(a) => s.(slots := DoAll(s.slots, Ops(s, e)), flash := React(s.flash, a).state)
  }

  // ---------------------------------------------------------------- what every step keeps

  /** Where a slot is when it is live. */
  predicate InPlace(slot: nat, r: Region) {
    match slot
    case 3 => r == RAM_WRAP
    case 7 => r == BOOT_ROM || r == DiskRegion(r.start / 512)
    case _ => slot in {0, 1, 2, 4, 5, 6} && r == Home(slot)
  }

  predicate Valid(s: Sys) {
    && (forall i :: i in s.slots ==> InPlace(i, s.slots[i]))
    && {0, 1, 2, 6, 7} <= s.slots.Keys
    && (4 in s.slots <==> 5 in s.slots)
    && Bit1(s.a20) == Bit1(s.lastA20)
    && (3 in s.slots <==> !Bit1(s.a20))
  }

  /** The flash slots are live exactly when the chip is not giving its identification. */
  predicate FlashVisible(s: Sys) {
    4 in s.slots <==> s.flash != ProductIdentification
  }

  lemma InPlaceApart(i: nat, a: Region, j: nat, b: Region)
    requires InPlace(i, a) && InPlace(j, b) && i != j
    ensures Apart(a, b)
  {
  }

  lemma ValidDisjoint(s: Sys)
    requires Valid(s)
    ensures Disjoint(s.slots)
  {
    forall i, j | i in s.slots && j in s.slots && i != j ensures Apart(s.slots[i], s.slots[j]) {
      InPlaceApart(i, s.slots[i], j, s.slots[j]);
    }
  }

  lemma DoPair(m: Slots, p: Op, q: Op)
    ensures DoAll(m, [p]) == Do(m, p) && DoAll(m, [p, q]) == Do(Do(m, p), q)
    ensures AllClean(m, [p]) == Clean(m, p) && AllClean(m, [p, q]) == (Clean(m, p) && Clean(Do(m, p), q))
  {
    assert [p, q][1..] == [q] && [p][1..] == [];
    assert DoAll(Do(m, p), [q]) == DoAll(Do(Do(m, p), q), []);
    assert AllClean(Do(m, p), [q]) == Clean(Do(m, p), q);
  }

  lemma {:induction false} DoAppend(m: Slots, x: seq<Op>, y: seq<Op>)
    ensures DoAll(m, x + y) == DoAll(DoAll(m, x), y)
    ensures AllClean(m, x + y) == (AllClean(m, x) && AllClean(DoAll(m, x), y))
    decreases |x|
  {
    if x == [] {
      assert x + y == y;
    } else {
      assert (x + y)[0] == x[0] && (x + y)[1..] == x[1..] + y;
      DoAppend(Do(m, x[0]), x[1..], y);
    }
  }

  /** The slots after an exit for a port access, spelled out. */
  lemma IoExitSlots(s: Sys, a20: byte, select: Selection)
    requires Valid(s)
    ensures var m := Step(s, IoExit(a20, select)).slots;
      && (3 in m <==> !Bit1(a20)) && (3 in m ==> m[3] == RAM_WRAP)
      && 7 in m && m[7] == (if select.Selected? then DiskRegion(select.lba) else s.slots[7])
      && (forall i :: i != 3 && i != 7 ==> (i in m <==> i in s.slots) && (i in m ==> m[i] == s.slots[i]))
  {
    var x := A20Ops(s.lastA20, a20);
    DoAppend(s.slots, x, DiskOps(select));
    DoPair(s.slots, if Bit1(a20) then Unmap(3) else Map(3, RAM_WRAP), Unmap(7));
    if select.Selected? {
      DoPair(DoAll(s.slots, x), Unmap(7), Map(7, DiskRegion(select.lba)));
    }
  }

  lemma FlashExitSlots(s: Sys, a: Access)
    requires Survived(s, FlashExit(a))
    ensures var m := Step(s, FlashExit(a)).slots;
      m == if a.Load? && s.flash == ProductIdentification then s.slots[4 := FLASH][5 := FLASH_ALIAS]
           else if React(s.flash, a).state == ProductIdentification then s.slots - {4} - {5}
           else s.slots
  {
    DoPair(s.slots, Map(4, FLASH), Map(5, FLASH_ALIAS));
    DoPair(s.slots, Unmap(4), Unmap(5));
  }

  lemma IoExitKeepsValid(s: Sys, a20: byte, select: Selection)
    requires Valid(s)
    ensures Valid(Step(s, IoExit(a20, select)))
  {
    IoExitSlots(s, a20, select);
  }

  lemma FlashExitKeepsValid(s: Sys, a: Access)
    requires Valid(s) && Survived(s, FlashExit(a))
    ensures Valid(Step(s, FlashExit(a)))
  {
    FlashExitSlots(s, a);
  }

  /** Every step keeps the slots in place, so pairwise disjoint; after an exit for a port access the
      alias of low RAM at 0x100000 is live exactly when bit 1 of the A20 register is clear. */
  lemma StepKeepsValid(s: Sys, e: Event)
    requires Valid(s) && Survived(s, e)
    ensures Valid(Step(s, e)) && Disjoint(Step(s, e).slots)
    ensures e.IoExit? ==> (3 in Step(s, e).slots <==> e.a20 / 2 % 2 == 0)
  {
    match e {
      case IoExit(a20, select) => IoExitKeepsValid(s, a20, select);
      case FlashExit(a) => FlashExitKeepsValid(s, a);
    }
    ValidDisjoint(Step(s, e));
  }

  /** A step keeps the flash slots and the chip's state together, except for exactly one: the reset
      write F0 while the identification is showing, after which the slots stay unmapped. */
  lemma VisibleExactly(s: Sys, e: Event)
    requires Valid(s) && FlashVisible(s) && Survived(s, e)
    ensures FlashVisible(Step(s, e))
      <==> !(e.FlashExit? && s.flash == ProductIdentification && e.a.Write? && e.a.data == 0xF0)
  {
    match e {
      case IoExit(a20, select) => IoExitSlots(s, a20, select);
      case FlashExit(a) => FlashExitSlots(s, a);
    }
  }

  /** A step asks KVM for something it refuses exactly when it is an identify with the flash slots
      already gone. */
  lemma RequestsCleanExactly(s: Sys, e: Event)
    requires Valid(s) && Survived(s, e)
    ensures AllClean(s.slots, Ops(s, e))
      <==> !(e.FlashExit? && 4 !in s.slots && React(s.flash, e.a) == Next(ProductIdentification, Keep))
  {
    match e
    case IoExit(a20, select) => IoRequestsAreClean(s, a20, select);
    case FlashExit(a) => FlashRequestsCleanExactly(s, a);
  }

  lemma IoRequestsAreClean(s: Sys, a20: byte, select: Selection)
    requires Valid(s)
    ensures AllClean(s.slots, Ops(s, IoExit(a20, select)))
  {
    var x := A20Ops(s.lastA20, a20);
    var s1 := Step(s, IoExit(a20, Unselected));
    assert x + [] == x;
    DoAppend(s.slots, x, DiskOps(select));
    A20RequestIsClean(s, a20);
    StepKeepsValid(s, IoExit(a20, Unselected));
    if select.Selected? {
      DoPair(s1.slots, Unmap(7), Map(7, DiskRegion(select.lba)));
      MapIsClean(s1, 7, DiskRegion(select.lba));
    }
  }

  lemma A20RequestIsClean(s: Sys, a20: byte)
    requires Valid(s)
    ensures AllClean(s.slots, A20Ops(s.lastA20, a20))
  {
    DoPair(s.slots, if Bit1(a20) then Unmap(3) else Map(3, RAM_WRAP), Unmap(7));
    MapIsClean(s, 3, RAM_WRAP);
  }

  lemma FlashRequestsCleanExactly(s: Sys, a: Access)
    requires Valid(s) && Survived(s, FlashExit(a))
    ensures AllClean(s.slots, FlashOps(s.flash, a))
      <==> !(4 !in s.slots && React(s.flash, a) == Next(ProductIdentification, Keep))
  {
    if a.Load? && s.flash == ProductIdentification {
      DoPair(s.slots, Map(4, FLASH), Map(5, FLASH_ALIAS));
      MapIsClean(s, 4, FLASH);
      MapIsClean(s, 5, FLASH_ALIAS);
    } else {
      DoPair(s.slots, Unmap(4), Unmap(5));
    }
  }

  lemma MapIsClean(s: Sys, slot: nat, r: Region)
    requires Valid(s) && InPlace(slot, r)
    ensures Clean(s.slots, Map(slot, r)) && Clean(s.slots - {slot}, Map(slot, r))
    ensures slot == 5 ==> Clean(s.slots[4 := FLASH], Map(slot, r))
  {
    forall i | i in s.slots && i != slot ensures Apart(s.slots[i], r) {
      InPlaceApart(i, s.slots[i], slot, r);
    }
  }

  // ---------------------------------------------------------------- runs

  /** The reset write F0 while the identification is showing. */
  predicate ResetsIdentification(s: Sys, e: Event) {
    e.FlashExit? && s.flash == ProductIdentification && e.a.Write? && e.a.data == 0xF0
  }

  /** A run without an unknown command sequence. */
  ghost predicate SurvivedRun(s: Sys, events: seq<Event>)
    decreases |events|
  {
    events == [] || (Survived(s, events[0]) && SurvivedRun(Step(s, events[0]), events[1..]))
  }

  ghost function Final(s: Sys, events: seq<Event>): Sys
    requires SurvivedRun(s, events)
    decreases |events|
  {
    if events == [] then s else Final(Step(s, events[0]), events[1..])
  }

  ghost predicate NeverResets(s: Sys, events: seq<Event>)
    requires SurvivedRun(s, events)
    decreases |events|
  {
    events == [] || (!ResetsIdentification(s, events[0]) && NeverResets(Step(s, events[0]), events[1..]))
  }

  /** KVM accepts every request of the run; at the first refusal the emulator exits. */
  ghost predicate Accepted(s: Sys, events: seq<Event>)
    requires SurvivedRun(s, events)
    decreases |events|
  {
    events == [] || (AllClean(s.slots, Ops(s, events[0])) && Accepted(Step(s, events[0]), events[1..]))
  }

  /** A run that never writes F0 into the identification keeps the slots apart and the flash slots
      in step with the chip, and all its requests are accepted. */
  lemma {:induction false} RunsAreSafe(s: Sys, events: seq<Event>)
    requires Valid(s) && FlashVisible(s) && SurvivedRun(s, events) && NeverResets(s, events)
    ensures Valid(Final(s, events)) && FlashVisible(Final(s, events)) && Disjoint(Final(s, events).slots)
    ensures Accepted(s, events)
    decreases |events|
  {
    if events == [] {
      ValidDisjoint(s);
    } else {
      SafeStep(s, events[0]);
      RunsAreSafe(Step(s, events[0]), events[1..]);
    }
  }

  lemma SafeStep(s: Sys, e: Event)
    requires Valid(s) && FlashVisible(s) && Survived(s, e) && !ResetsIdentification(s, e)
    ensures Valid(Step(s, e)) && FlashVisible(Step(s, e)) && AllClean(s.slots, Ops(s, e))
  {
    StepKeepsValid(s, e);
    VisibleExactly(s, e);
    RequestsCleanExactly(s, e);
  }

  /** The flash slots have stayed unmapped after the identification. */
  predicate Gone(s: Sys) {
    4 !in s.slots && s.flash != ProductIdentification
  }

  /** Once they are gone they stay gone, and so does the identification, for as long as the emulator
      lives: the only way back is an identify, whose first request is refused. */
  lemma {:induction false} GoneForever(s: Sys, events: seq<Event>)
    requires Valid(s) && Gone(s) && SurvivedRun(s, events) && Accepted(s, events)
    ensures Valid(Final(s, events)) && Gone(Final(s, events))
    decreases |events|
  {
    if events != [] {
      GoneStep(s, events[0]);
      GoneForever(Step(s, events[0]), events[1..]);
    }
  }

  lemma GoneStep(s: Sys, e: Event)
    requires Valid(s) && Gone(s) && Survived(s, e) && AllClean(s.slots, Ops(s, e))
    ensures Valid(Step(s, e)) && Gone(Step(s, e))
  {
    StepKeepsValid(s, e);
    RequestsCleanExactly(s, e);
    match e
    case IoExit(a20, select) => IoExitSlots(s, a20, select);
    case FlashExit(a) => FlashExitSlots(s, a);
  }

  /** So over every run that the emulator lives through, the flash slots agree with the chip at the
      end exactly when the identification was never reset by F0. */
  lemma {:induction false} VisibleAfterExactly(s: Sys, events: seq<Event>)
    requires Valid(s) && FlashVisible(s) && SurvivedRun(s, events) && Accepted(s, events)
    ensures FlashVisible(Final(s, events)) <==> NeverResets(s, events)
    decreases |events|
  {
    if events != [] {
      var e := events[0];
      StepKeepsValid(s, e);
      VisibleExactly(s, e);
      if ResetsIdentification(s, e) {
        FlashExitSlots(s, e.a);
        GoneForever(Step(s, e), events[1..]);
      } else {
        VisibleAfterExactly(Step(s, e), events[1..]);
      }
    }
  }

  lemma StartIsSafe()
    ensures Valid(START) && FlashVisible(START)
  {
  }

  const UNLOCK_1: Event := FlashExit(Write(0x555, 0xAA))
  const UNLOCK_2: Event := FlashExit(Write(0x2AA, 0x55))
  const IDENTIFY: Event := FlashExit(Write(0x555, 0x90))
  const RESET: Event := FlashExit(Write(0, 0xF0))

  /** Both happen: after start, an identify and a reset lose the slots, and the next identify is
      refused. */
  lemma IdentifyTwiceIsRefused()
    ensures var once, twice := [UNLOCK_1, UNLOCK_2, IDENTIFY, RESET], [UNLOCK_1, UNLOCK_2, IDENTIFY];
      && SurvivedRun(START, once) && Accepted(START, once) && Gone(Final(START, once))
      && SurvivedRun(Final(START, once), twice) && !Accepted(Final(START, once), twice)
  {
    var s3 := Identifying(START);
    var s4 := Step(s3, RESET);
    IdentifyRun(START, [RESET]);
    RunOfOne(s3, RESET, []);
    FlashExitSlots(s3, RESET.a);
    assert [UNLOCK_1, UNLOCK_2, IDENTIFY] + [RESET] == [UNLOCK_1, UNLOCK_2, IDENTIFY, RESET];
    IdentifyRun(s4, []);
    assert [UNLOCK_1, UNLOCK_2, IDENTIFY] + [] == [UNLOCK_1, UNLOCK_2, IDENTIFY];
  }

  ghost function Identifying(s: Sys): Sys {
    s.(slots := s.slots - {4} - {5}, flash := ProductIdentification)
  }

  /** An identify sequence from a reading chip, and what follows it. */
  lemma IdentifyRun(s: Sys, rest: seq<Event>)
    requires s.flash == Reading && SurvivedRun(Identifying(s), rest)
    ensures var events := [UNLOCK_1, UNLOCK_2, IDENTIFY] + rest;
      && SurvivedRun(s, events) && Final(s, events) == Final(Identifying(s), rest)
      && (Accepted(s, events) <==> 4 in s.slots && 5 in s.slots && Accepted(Identifying(s), rest))
  {
    var s1 := Step(s, UNLOCK_1);
    var s2 := Step(s1, UNLOCK_2);
    IdentifyStep(s2);
    RunOfOne(s2, IDENTIFY, rest);
    RunOfOne(s1, UNLOCK_2, [IDENTIFY] + rest);
    RunOfOne(s, UNLOCK_1, [UNLOCK_2] + ([IDENTIFY] + rest));
    assert [UNLOCK_1] + ([UNLOCK_2] + ([IDENTIFY] + rest)) == [UNLOCK_1, UNLOCK_2, IDENTIFY] + rest;
  }

  lemma IdentifyStep(s: Sys)
    requires s.flash == CommandByte2
    ensures Survived(s, IDENTIFY) && Step(s, IDENTIFY) == Identifying(s)
    ensures AllClean(s.slots, Ops(s, IDENTIFY)) <==> 4 in s.slots && 5 in s.slots
  {
    DoPair(s.slots, Unmap(4), Unmap(5));
  }

  lemma RunOfOne(s: Sys, e: Event, rest: seq<Event>)
    requires Survived(s, e) && SurvivedRun(Step(s, e), rest)
    ensures SurvivedRun(s, [e] + rest) && Final(s, [e] + rest) == Final(Step(s, e), rest)
    ensures Accepted(s, [e] + rest) <==> AllClean(s.slots, Ops(s, e)) && Accepted(Step(s, e), rest)
  {
    assert ([e] + rest)[1..] == rest;
  }

  // ---------------------------------------------------------------- addresses

  datatype Place = Nowhere | At(backing: Backing, offset: nat)

  predicate Holds(r: Region, phys: nat) {
    r.base <= phys < r.base + r.size
  }

  /** What a guest-physical address reaches, looking through the slots from number `k` on. */
  function Lookup(m: Slots, phys: nat, k: nat): Place
    requires k <= 8
    decreases 8 - k
  {
    if k == 8 then Nowhere
    else if k in m && Holds(m[k], phys) then At(m[k].backing, m[k].start + phys - m[k].base)
    else Lookup(m, phys, k + 1)
  }

  /** With the slots apart, the search order does not matter. */
  lemma {:induction false} LookupUnique(m: Slots, phys: nat, k: nat, slot: nat)
    requires Disjoint(m) && k <= slot < 8 && slot in m && Holds(m[slot], phys)
    ensures Lookup(m, phys, k) == At(m[slot].backing, m[slot].start + phys - m[slot].base)
    decreases slot - k
  {
    if k < slot {
      assert k in m ==> Apart(m[k], m[slot]);
      LookupUnique(m, phys, k + 1, slot);
    }
  }

  lemma {:induction false} LookupNowhere(m: Slots, phys: nat, k: nat)
    requires k <= 8 && forall i :: k <= i < 8 && i in m ==> !Holds(m[i], phys)
    ensures Lookup(m, phys, k) == Nowhere
    decreases 8 - k
  {
    if k < 8 {
      LookupNowhere(m, phys, k + 1);
    }
  }

  // ---------------------------------------------------------------- what every address reaches

  /** What every guest-physical address reaches: low RAM, the ROM's first page and its window, the
      upper quarter of the flash below 1 MiB, the wrap of A20, the flash aperture, and nothing else. */
  lemma MemoryMap(s: Sys, phys: nat)
    requires Valid(s)
    ensures Lookup(s.slots, phys, 0) ==
      if phys < 0x7_0000 then At(Ram, phys)
      else if 0xC_8000 <= phys < 0xC_9000 then At(OptionRom, phys - 0xC_8000)
      else if 0xC_9000 <= phys < 0xC_A000 then At(s.slots[7].backing, s.slots[7].start + phys - 0xC_9000)
      else if 0xE_0000 <= phys < 0x10_0000 then At(FlashMemory, 0x6_0000 + phys - 0xE_0000)
      else if 0x10_0000 <= phys < 0x11_0000 && s.a20 / 2 % 2 == 0 then At(Ram, phys - 0x10_0000)
      else if 0x340_0000 <= phys < 0x348_0000 && 4 in s.slots then At(FlashMemory, phys - 0x340_0000)
      else if 0x348_0000 <= phys < 0x350_0000 && 4 in s.slots then At(FlashMemory, phys - 0x348_0000)
      else Nowhere
  {
    ValidDisjoint(s);
    var slot := SlotAt(phys);
    forall i | 0 <= i < 8 && i in s.slots ensures Holds(s.slots[i], phys) <==> i == slot {
      HoldsExactly(i, s.slots[i], phys);
    }
    if slot in s.slots {
      assert InPlace(slot, s.slots[slot]);
      LookupUnique(s.slots, phys, 0, slot);
    } else {
      LookupNowhere(s.slots, phys, 0);
    }
  }

  lemma HoldsExactly(slot: nat, r: Region, phys: nat)
    requires slot < 8 && InPlace(slot, r)
    ensures Holds(r, phys) <==> slot == SlotAt(phys)
  {
  }

  /** The slot an address belongs to. */
  function SlotAt(phys: nat): nat {
    if phys < 0x7_0000 then 0
    else if 0xE_0000 <= phys < 0xF_0000 then 1
    else if 0xF_0000 <= phys < 0x10_0000 then 2
    else if 0x10_0000 <= phys < 0x11_0000 then 3
    else if 0x340_0000 <= phys < 0x348_0000 then 4
    else if 0x348_0000 <= phys < 0x350_0000 then 5
    else if 0xC_8000 <= phys < 0xC_9000 then 6
    else if 0xC_9000 <= phys < 0xC_A000 then 7
    else 8
  }

  /** The wrap at 1 MiB: an address just above it reaches the low RAM byte 0x100000 below exactly
      when A20 is off, and nothing when it is on. */
  lemma A20Wraps(s: Sys, x: nat)
    requires Valid(s) && x < 0x1_0000
    ensures Lookup(s.slots, x, 0) == At(Ram, x)
    ensures Lookup(s.slots, 0x10_0000 + x, 0) == if s.a20 / 2 % 2 == 1 then Nowhere else At(Ram, x)
  {
    MemoryMap(s, x);
    MemoryMap(s, 0x10_0000 + x);
  }

  /** Offset `si` of the option ROM's segment: the ROM's first page, slot 7, and nothing for the
      88 KiB beyond. */
  lemma SegmentPlaces(s: Sys, si: nat)
    requires Valid(s) && si < 0x1_8000
    ensures Lookup(s.slots, 0xC8000 + si, 0)
         == if si < 0x1000 then At(OptionRom, si)
            else if si < 0x2000 then At(s.slots[7].backing, s.slots[7].start + si - 0x1000)
            else Nowhere
  {
    MemoryMap(s, 0xC8000 + si);
  }

  /** After a selection the window is exactly the eight sectors from the selected one, between the
      ROM's first page and nothing. */
  lemma SegmentShowsSelection(s: Sys, a20: byte, lba: nat, si: nat)
    requires Valid(s) && si < 0x1_8000
    ensures Lookup(Step(s, IoExit(a20, Selected(lba))).slots, 0xC8000 + si, 0)
         == if si < 0x1000 then At(OptionRom, si)
            else if si < 0x2000 then At(DiskImage, 512 * lba + si - 0x1000)
            else Nowhere
  {
    var s' := Step(s, IoExit(a20, Selected(lba)));
    IoExitKeepsValid(s, a20, Selected(lba));
    IoExitSlots(s, a20, Selected(lba));
    SegmentPlaces(s', si);
  }

  /** The flash aperture, both halves, reaches the chip exactly while the flash slots are live, which
      is exactly while the chip is not identifying unless they are gone. */
  lemma ApertureShowsFlash(s: Sys, phys: nat)
    requires Valid(s) && InAperture(phys)
    ensures Lookup(s.slots, phys, 0) == if 4 in s.slots then At(FlashMemory, ChipOffset(phys)) else Nowhere
    ensures FlashVisible(s) ==>
      (Lookup(s.slots, phys, 0) == At(FlashMemory, ChipOffset(phys)) <==> s.flash != ProductIdentification)
  {
    MemoryMap(s, phys);
  }

  /** After start A20 is on, the second page of the ROM shows at 0xC9000, and the flash is visible:
      the processor's first instruction, at FFFF0, is fetched from 16 bytes before its end. */
  lemma StartMap(phys: nat)
    ensures Lookup(START.slots, 0xF_FFF0, 0) == At(FlashMemory, 0x8_0000 - 16)
    ensures 0xC_8000 <= phys < 0xC_A000 ==> Lookup(START.slots, phys, 0) == At(OptionRom, phys - 0xC_8000)
    ensures 0x10_0000 <= phys < 0x11_0000 ==> Lookup(START.slots, phys, 0) == Nowhere
    ensures 0x340_0000 <= phys < 0x350_0000 ==> Lookup(START.slots, phys, 0) == At(FlashMemory, phys % 0x8_0000)
  {
    StartIsSafe();
    MemoryMap(START, phys);
    MemoryMap(START, 0xF_FFF0);
  }
}
