/**
 The flash chip's command state machine, and an independent reading of the same accesses: what an
 access does is decided by looking back at the writes just before it. Over every run that the
 emulator survives the two agree.
 */
module Flash {
  import opened Words

  const SIZE: nat := 0x8_0000
  const SECTOR: nat := 0x1_0000

  type offset = o: int | 0 <= o < 0x8_0000

  /** An access that exits to the host, as an offset into the chip. */
  datatype Access = Load(at: offset) | Write(at: offset, data: byte)

  datatype State =
    | Reading
    | CommandByte1
    | CommandByte2
    | CommandByte3
    | CommandByte4
    | CommandByte5
    | Program
    | ProductIdentification

  /** What an access does to the memory. */
  datatype Command = Keep | ProgramByte(at: offset, data: byte) | EraseSector(base: offset) | EraseChip

  /** The outcome of an access: the next state and the command, or the emulator's exit. */
  datatype Outcome = Next(state: State, command: Command) | Exit

  predicate IsWrite(a: Access, low: nat, data: byte) {
    a.Write? && a.at % 0x800 == low && a.data == data
  }

  predicate Unlock1(a: Access) { IsWrite(a, 0x555, 0xAA) }
  predicate Unlock2(a: Access) { IsWrite(a, 0x2AA, 0x55) }
  predicate Setup(a: Access, command: byte) { IsWrite(a, 0x555, command) }

  /** One access, in the order the code tests. */
  function React(s: State, a: Access): Outcome {
    if a.Load? then Next(Reading, Keep)
    else if s == Program then Next(Reading, ProgramByte(a.at, a.data))
    else if a.data == 0xF0 then Next(Reading, Keep)
    else if s == Reading && Unlock1(a) then Next(CommandByte1, Keep)
    else if s == CommandByte1 && Unlock2(a) then Next(CommandByte2, Keep)
    else if s == CommandByte2 && Setup(a, 0x80) then Next(CommandByte3, Keep)
    else if s == CommandByte3 && Unlock1(a) then Next(CommandByte4, Keep)
    else if s == CommandByte4 && Unlock2(a) then Next(CommandByte5, Keep)
    else if s == CommandByte2 && Setup(a, 0xA0) then Next(Program, Keep)
    else if s == CommandByte2 && Setup(a, 0x90) then Next(ProductIdentification, Keep)
    else if s == CommandByte5 && a.data == 0x30 then Next(Reading, EraseSector(a.at / 0x1_0000 * 0x1_0000))
    else if s == CommandByte5 && Setup(a, 0x10) then Next(Reading, EraseChip)
    else Exit
  }

  /** The memory after a command, byte by byte. */
  function Apply(m: seq<byte>, c: Command): (r: seq<byte>)
    requires |m| == SIZE
    ensures |r| == SIZE
  {
    match c
    case Keep => m
    case ProgramByte(at, data) => m[at := data]
    case EraseSector(base) =>
      seq(SIZE, p requires 0 <= p < SIZE => if base <= p < base + SECTOR then 0xFF else m[p])
    case EraseChip => seq(SIZE, p => 0xFF)
  }

  /** The state after a run of accesses, unless the emulator has exited. */
  datatype Phase = Alive(state: State) | Dead

  function PhaseAfter(t: seq<Access>): Phase {
    if t == [] then Alive(Reading)
    else
      var before := PhaseAfter(t[..|t| - 1]);
      if before.Dead? then Dead else Advance(before.state, t[|t| - 1])
  }

  function Advance(s: State, a: Access): Phase {
    var o := React(s, a);
    if o.Exit? then Dead else Alive(o.state)
  }

  /** The emulator survives the accesses. */
  predicate Survives(t: seq<Access>) {
    PhaseAfter(t).Alive?
  }

  /** The memory after a run that is survived, by the state machine. */
  function MemoryAfter(m: seq<byte>, t: seq<Access>): (r: seq<byte>)
    requires |m| == SIZE && Survives(t)
    ensures |r| == SIZE
  {
    if t == [] then m
    else
      var k := |t| - 1;
      Apply(MemoryAfter(m, t[..k]), React(PhaseAfter(t[..k]).state, t[k]).command)
  }

  // ---------------------------------------------------------------- looking back

  predicate ProgramPrefix(t: seq<Access>, k: nat)
    requires k <= |t|
  {
    k >= 3 && Unlock1(t[k - 3]) && Unlock2(t[k - 2]) && Setup(t[k - 1], 0xA0)
  }

  predicate IdentifyPrefix(t: seq<Access>, k: nat)
    requires k <= |t|
  {
    k >= 3 && Unlock1(t[k - 3]) && Unlock2(t[k - 2]) && Setup(t[k - 1], 0x90)
  }

  predicate ErasePrefix(t: seq<Access>, k: nat)
    requires k <= |t|
  {
    && k >= 5 && Unlock1(t[k - 5]) && Unlock2(t[k - 4]) && Setup(t[k - 3], 0x80)
    && Unlock1(t[k - 2]) && Unlock2(t[k - 1])
  }

  /** What access `k` does, by the writes right before it. */
  function Decoded(t: seq<Access>, k: nat): Command
    requires k < |t|
  {
    if t[k].Write? && ProgramPrefix(t, k) then ProgramByte(t[k].at, t[k].data)
    else if t[k].Write? && ErasePrefix(t, k) && t[k].data == 0x30 then EraseSector(t[k].at / 0x1_0000 * 0x1_0000)
    else if ErasePrefix(t, k) && Setup(t[k], 0x10) then EraseChip
    else Keep
  }

  function Fold(m: seq<byte>, t: seq<Access>, k: nat): (r: seq<byte>)
    requires |m| == SIZE && k <= |t|
    ensures |r| == SIZE
  {
    if k == 0 then m else Apply(Fold(m, t, k - 1), Decoded(t, k - 1))
  }

  /** The last writes that a state in the middle of a sequence remembers. */
  predicate Remembers(t: seq<Access>, s: State) {
    var k := |t|;
    match s
    case Reading => true
    case CommandByte1 => k >= 1 && Unlock1(t[k - 1])
    case CommandByte2 => k >= 2 && Unlock1(t[k - 2]) && Unlock2(t[k - 1])
    case CommandByte3 => k >= 3 && Unlock1(t[k - 3]) && Unlock2(t[k - 2]) && Setup(t[k - 1], 0x80)
    case CommandByte4 =>
      k >= 4 && Unlock1(t[k - 4]) && Unlock2(t[k - 3]) && Setup(t[k - 2], 0x80) && Unlock1(t[k - 1])
    case CommandByte5 => ErasePrefix(t, k)
    case Program => ProgramPrefix(t, k)
    case ProductIdentification => IdentifyPrefix(t, k)
  }

  /** A state is reached only by its own unlock prefix. */
  lemma {:induction false} StateRemembers(t: seq<Access>)
    requires Survives(t)
    ensures Remembers(t, PhaseAfter(t).state)
  {
    if t != [] {
      var init := t[..|t| - 1];
      StateRemembers(init);
      ReactRemembers(init, PhaseAfter(init).state, t[|t| - 1]);
      assert init + [t[|t| - 1]] == t;
    }
  }

  lemma ReactRemembers(t: seq<Access>, s: State, a: Access)
    requires Remembers(t, s) && React(s, a).Next?
    ensures Remembers(t + [a], React(s, a).state)
  {
  }

  /** Surviving three writes that spell a program, identify or erase set-up leaves no choice of
      state before them. */
  lemma ThreeWrites(s: State, a: Access, b: Access, c: Access)
    requires Unlock1(a) && Unlock2(b) && c.Write? && c.data in {0x80, 0x90, 0xA0} && c.at % 0x800 == 0x555
    requires Advance(s, a).Alive? && Advance(Advance(s, a).state, b).Alive?
    requires Advance(Advance(Advance(s, a).state, b).state, c).Alive?
    ensures Advance(Advance(Advance(s, a).state, b).state, c).state
         == if c.data == 0xA0 then Program else if c.data == 0x90 then ProductIdentification else CommandByte3
  {
  }

  /** One access less is survived too. */
  lemma SurvivedBefore(t: seq<Access>, k: nat)
    requires Survives(t) && k < |t|
    ensures PhaseAfter(t[..k]).Alive? && PhaseAfter(t[..k + 1]) == Advance(PhaseAfter(t[..k]).state, t[k])
    decreases |t|
  {
    var init := t[..|t| - 1];
    if k < |t| - 1 {
      SurvivedBefore(init, k);
      assert init[..k] == t[..k] && init[..k + 1] == t[..k + 1];
    } else {
      assert t[..k + 1] == t;
    }
  }

  /** In a run that is survived, the prefix of a command leads to its state. */
  lemma PrefixReaches(t: seq<Access>)
    requires Survives(t)
    ensures ProgramPrefix(t, |t|) ==> PhaseAfter(t).state == Program
    ensures IdentifyPrefix(t, |t|) ==> PhaseAfter(t).state == ProductIdentification
    ensures ErasePrefix(t, |t|) ==> PhaseAfter(t).state == CommandByte5
  {
    var k := |t|;
    assert t[..k] == t;
    if ProgramPrefix(t, k) || IdentifyPrefix(t, k) {
      SetupReaches(t, k);
    } else if ErasePrefix(t, k) {
      SurvivedBefore(t, k - 2);
      SurvivedBefore(t, k - 1);
      SetupReaches(t, k - 2);
    }
  }

  lemma SetupReaches(t: seq<Access>, k: nat)
    requires Survives(t) && 3 <= k <= |t| && Unlock1(t[k - 3]) && Unlock2(t[k - 2])
    requires t[k - 1].Write? && t[k - 1].data in {0x80, 0x90, 0xA0} && t[k - 1].at % 0x800 == 0x555
    ensures PhaseAfter(t[..k])
         == Alive(if t[k - 1].data == 0xA0 then Program
                  else if t[k - 1].data == 0x90 then ProductIdentification else CommandByte3)
  {
    SurvivedBefore(t, k - 3);
    SurvivedBefore(t, k - 2);
    SurvivedBefore(t, k - 1);
    if k < |t| {
      SurvivedBefore(t, k);
    } else {
      assert t[..k] == t;
    }
    ThreeWrites(PhaseAfter(t[..k - 3]).state, t[k - 3], t[k - 2], t[k - 1]);
  }

  /** In a run that is survived, the states that authorise something are exactly the prefixes. */
  lemma StateIsPrefix(t: seq<Access>)
    requires Survives(t)
    ensures PhaseAfter(t).state == Program <==> ProgramPrefix(t, |t|)
    ensures PhaseAfter(t).state == ProductIdentification <==> IdentifyPrefix(t, |t|)
    ensures PhaseAfter(t).state == CommandByte5 <==> ErasePrefix(t, |t|)
  {
    StateRemembers(t);
    PrefixReaches(t);
  }

  /** The state machine does what looking back says. */
  lemma ReactIsDecoded(t: seq<Access>)
    requires t != [] && Survives(t)
    ensures Survives(t[..|t| - 1])
    ensures React(PhaseAfter(t[..|t| - 1]).state, t[|t| - 1]).Next?
    ensures React(PhaseAfter(t[..|t| - 1]).state, t[|t| - 1]).command == Decoded(t, |t| - 1)
  {
    var k := |t| - 1;
    StateIsPrefix(t[..k]);
    assert ProgramPrefix(t, k) == ProgramPrefix(t[..k], k) && ErasePrefix(t, k) == ErasePrefix(t[..k], k);
  }

  /** For every run of accesses that the emulator survives, the memory is the fold of the commands
      that looking back decodes. */
  lemma {:induction false} TraceRefinement(m: seq<byte>, t: seq<Access>)
    requires |m| == SIZE && Survives(t)
    ensures MemoryAfter(m, t) == Fold(m, t, |t|)
  {
    if t != [] {
      var k := |t| - 1;
      ReactIsDecoded(t);
      TraceRefinement(m, t[..k]);
      FoldDepends(m, t[..k], t, k);
    }
  }

  lemma {:induction false} FoldDepends(m: seq<byte>, t: seq<Access>, t': seq<Access>, k: nat)
    requires |m| == SIZE && k <= |t| <= |t'| && t == t'[..|t|]
    ensures Fold(m, t, k) == Fold(m, t', k)
  {
    if k > 0 {
      FoldDepends(m, t, t', k - 1);
    }
  }

  /** Authorisation: the last access of a run changes byte `p` only as the data write of a full
      program sequence, or as the last write of a full erase sequence that covers `p`. */
  lemma ChangeIsAuthorised(m: seq<byte>, t: seq<Access>, p: nat)
    requires |m| == SIZE && t != [] && Survives(t) && p < SIZE
    ensures Survives(t[..|t| - 1])
    ensures var k := |t| - 1;
      MemoryAfter(m, t)[p] != MemoryAfter(m, t[..k])[p] ==>
      t[k].Write?
      && ((ProgramPrefix(t, k) && t[k].at == p)
          || (ErasePrefix(t, k) && t[k].data == 0x30 && t[k].at / SECTOR == p / SECTOR)
          || (ErasePrefix(t, k) && Setup(t[k], 0x10)))
  {
    ReactIsDecoded(t);
  }

  /** And a full sequence always has its effect: the byte is programmed, whatever its value, and an
      erase clears exactly its 64 KiB sector or the chip. */
  lemma SequenceTakesEffect(m: seq<byte>, t: seq<Access>, p: nat)
    requires |m| == SIZE && t != [] && Survives(t) && p < SIZE
    ensures Survives(t[..|t| - 1])
    ensures var k := |t| - 1;
      var was, now := MemoryAfter(m, t[..k]), MemoryAfter(m, t);
      && (t[k].Write? && ProgramPrefix(t, k) ==> now[p] == if p == t[k].at then t[k].data else was[p])
      && (t[k].Write? && ErasePrefix(t, k) && t[k].data == 0x30 ==>
            now[p] == if p / SECTOR == t[k].at / SECTOR then 0xFF else was[p])
      && (ErasePrefix(t, k) && Setup(t[k], 0x10) ==> now[p] == 0xFF)
  {
    ReactIsDecoded(t);
  }

  /** What a load that reaches the host returns; the code leaves the exit's buffer untouched when
      the chip is not identifying. */
  function LoadValue(s: State, at: offset, untouched: byte): byte {
    if s == ProductIdentification then (if at % 2 == 1 then 0xA4 else 0x01) else untouched
  }

  /** Right after the identify prefix, and only then, a load gives the chip's identification. */
  lemma IdentifiesExactly(t: seq<Access>, at: offset, untouched: byte)
    requires Survives(t)
    ensures LoadValue(PhaseAfter(t).state, at, untouched)
         == if !IdentifyPrefix(t, |t|) then untouched else if at % 2 == 1 then 0xA4 else 0x01
  {
    StateIsPrefix(t);
  }

  // ---------------------------------------------------------------- which runs survive

  /** The unlocked set-up of an erase. */
  predicate ErasePending(t: seq<Access>, k: nat)
    requires k <= |t|
  {
    k >= 3 && Unlock1(t[k - 3]) && Unlock2(t[k - 2]) && Setup(t[k - 1], 0x80)
  }

  /** The state by looking back alone. */
  function LookBack(t: seq<Access>): State {
    var k := |t|;
    if ProgramPrefix(t, k) then Program
    else if IdentifyPrefix(t, k) then ProductIdentification
    else if ErasePrefix(t, k) then CommandByte5
    else if ErasePending(t, k) then CommandByte3
    else if k >= 1 && Unlock1(t[k - 1]) && ErasePending(t, k - 1) then CommandByte4
    else if k >= 1 && Unlock1(t[k - 1]) && !ProgramPrefix(t, k - 1) then CommandByte1
    else if k >= 2 && Unlock1(t[k - 2]) && Unlock2(t[k - 1]) then CommandByte2
    else Reading
  }

  /** In a run that is survived, looking back tells every state. */
  lemma {:induction false} StateByLookingBack(t: seq<Access>)
    requires Survives(t)
    ensures PhaseAfter(t).state == LookBack(t)
  {
    if t != [] {
      var init, a := t[..|t| - 1], t[|t| - 1];
      StateByLookingBack(init);
      assert init + [a] == t;
      LookBackStep(init, a);
      StateIsPrefix(t);
    }
  }

  lemma LookBackStep(t: seq<Access>, a: Access)
    requires React(LookBack(t), a).Next?
    ensures React(LookBack(t), a).state == LookBack(t + [a])
  {
    var k, u := |t|, t + [a];
    assert forall i :: 0 <= i <= k ==>
      ProgramPrefix(u, i) == ProgramPrefix(t, i) && ErasePending(u, i) == ErasePending(t, i);
  }

  lemma OnePhaseMore(t: seq<Access>, a: Access)
    requires Survives(t)
    ensures PhaseAfter(t + [a]) == Advance(PhaseAfter(t).state, a)
  {
    assert (t + [a])[..|t|] == t;
  }

  lemma OneMore(m: seq<byte>, t: seq<Access>, a: Access)
    requires |m| == SIZE && Survives(t)
    ensures PhaseAfter(t + [a]) == Advance(PhaseAfter(t).state, a)
    ensures Survives(t + [a]) ==>
      MemoryAfter(m, t + [a]) == Apply(MemoryAfter(m, t), React(PhaseAfter(t).state, a).command)
  {
    assert (t + [a])[..|t|] == t;
  }

  /** A run survives one access more exactly when that is a load, the data byte of a program sequence,
      a reset, or the next write of a sequence that the accesses before it spell. */
  lemma SurvivesExactly(t: seq<Access>, a: Access)
    requires Survives(t)
    ensures var k := |t|;
      Survives(t + [a]) <==>
        || a.Load? || ProgramPrefix(t, k) || a.data == 0xF0
        || (a.data == 0xAA && a.at % 0x800 == 0x555 && (LookBack(t) == Reading || ErasePending(t, k)))
        || (a.data == 0x55 && a.at % 0x800 == 0x2AA
            && k >= 1 && Unlock1(t[k - 1]) && !ProgramPrefix(t, k - 1))
        || (a.data in {0x80, 0x90, 0xA0} && a.at % 0x800 == 0x555
            && k >= 2 && Unlock1(t[k - 2]) && Unlock2(t[k - 1]) && !ErasePrefix(t, k))
        || (ErasePrefix(t, k) && (a.data == 0x30 || (a.data == 0x10 && a.at % 0x800 == 0x555)))
  {
    StateByLookingBack(t);
    StateRemembers(t);
    AcceptsExactly(t, a);
    OnePhaseMore(t, a);
  }

  lemma AcceptsExactly(t: seq<Access>, a: Access)
    requires Remembers(t, LookBack(t))
    ensures var k := |t|;
      React(LookBack(t), a).Next? <==>
        || a.Load? || ProgramPrefix(t, k) || a.data == 0xF0
        || (a.data == 0xAA && a.at % 0x800 == 0x555 && (LookBack(t) == Reading || ErasePending(t, k)))
        || (a.data == 0x55 && a.at % 0x800 == 0x2AA
            && k >= 1 && Unlock1(t[k - 1]) && !ProgramPrefix(t, k - 1))
        || (a.data in {0x80, 0x90, 0xA0} && a.at % 0x800 == 0x555
            && k >= 2 && Unlock1(t[k - 2]) && Unlock2(t[k - 1]) && !ErasePrefix(t, k))
        || (ErasePrefix(t, k) && (a.data == 0x30 || (a.data == 0x10 && a.at % 0x800 == 0x555)))
  {
  }

  // ---------------------------------------------------------------- the chip's commands

  /** With no sequence under way, the two unlock writes and a set-up are survived and do nothing. */
  lemma UnlockSequence(m: seq<byte>, t: seq<Access>, a1: offset, a2: offset, a3: offset, setup: byte)
    requires |m| == 0x8_0000 && Survives(t) && LookBack(t) == Reading
    requires a1 % 0x800 == a3 % 0x800 == 0x555 && a2 % 0x800 == 0x2AA && setup in {0x80, 0x90, 0xA0}
    ensures var t3 := t + [Write(a1, 0xAA), Write(a2, 0x55), Write(a3, setup)];
      && Survives(t3) && MemoryAfter(m, t3) == MemoryAfter(m, t)
      && PhaseAfter(t3).state
         == if setup == 0xA0 then Program else if setup == 0x90 then ProductIdentification else CommandByte3
  {
    StateByLookingBack(t);
    var t1, t2 := t + [Write(a1, 0xAA)], t + [Write(a1, 0xAA)] + [Write(a2, 0x55)];
    QuietMore(m, t, Write(a1, 0xAA), CommandByte1);
    QuietMore(m, t1, Write(a2, 0x55), CommandByte2);
    QuietMore(m, t2, Write(a3, setup),
              if setup == 0xA0 then Program else if setup == 0x90 then ProductIdentification else CommandByte3);
    assert t2 + [Write(a3, setup)] == t + [Write(a1, 0xAA), Write(a2, 0x55), Write(a3, setup)];
  }

  lemma QuietMore(m: seq<byte>, t: seq<Access>, a: Access, s: State)
    requires |m| == 0x8_0000 && Survives(t) && React(PhaseAfter(t).state, a) == Next(s, Keep)
    ensures Survives(t + [a]) && PhaseAfter(t + [a]).state == s && MemoryAfter(m, t + [a]) == MemoryAfter(m, t)
  {
    OneMore(m, t, a);
  }

  /** A program sequence stores its byte, at every address and whatever the byte. */
  lemma ProgramWorks(m: seq<byte>, t: seq<Access>, a1: offset, a2: offset, a3: offset, at: offset, data: byte)
    requires |m| == 0x8_0000 && Survives(t) && LookBack(t) == Reading
    requires a1 % 0x800 == a3 % 0x800 == 0x555 && a2 % 0x800 == 0x2AA
    ensures var t' := t + [Write(a1, 0xAA), Write(a2, 0x55), Write(a3, 0xA0)] + [Write(at, data)];
      && Survives(t') && LookBack(t') == Reading
      && MemoryAfter(m, t') == MemoryAfter(m, t)[at := data]
  {
    UnlockSequence(m, t, a1, a2, a3, 0xA0);
    var t3 := t + [Write(a1, 0xAA), Write(a2, 0x55), Write(a3, 0xA0)];
    OneMore(m, t3, Write(at, data));
    StateByLookingBack(t3 + [Write(at, data)]);
  }

  /** An erase sequence clears the 64 KiB sector of its last address, or with 10 the whole chip. */
  lemma EraseWorks(m: seq<byte>, t: seq<Access>, a: seq<offset>, at: offset, chip: bool)
    requires |m| == 0x8_0000 && Survives(t) && LookBack(t) == Reading
    requires |a| == 5 && a[0] % 0x800 == a[2] % 0x800 == a[3] % 0x800 == 0x555 && a[1] % 0x800 == a[4] % 0x800 == 0x2AA
    requires chip ==> at % 0x800 == 0x555
    ensures var t' := t + [Write(a[0], 0xAA), Write(a[1], 0x55), Write(a[2], 0x80)]
                      + [Write(a[3], 0xAA)] + [Write(a[4], 0x55)] + [Write(at, if chip then 0x10 else 0x30)];
      && Survives(t') && LookBack(t') == Reading
      && forall p :: 0 <= p < 0x8_0000 ==>
           MemoryAfter(m, t')[p] == if chip || p / 0x1_0000 == at / 0x1_0000 then 0xFF else MemoryAfter(m, t)[p]
  {
    UnlockSequence(m, t, a[0], a[1], a[2], 0x80);
    var t3 := t + [Write(a[0], 0xAA), Write(a[1], 0x55), Write(a[2], 0x80)];
    var t4 := t3 + [Write(a[3], 0xAA)];
    var t5 := t4 + [Write(a[4], 0x55)];
    var last := Write(at, if chip then 0x10 else 0x30);
    QuietMore(m, t3, Write(a[3], 0xAA), CommandByte4);
    QuietMore(m, t4, Write(a[4], 0x55), CommandByte5);
    OneMore(m, t5, last);
    StateByLookingBack(t5 + [last]);
  }

  /** An identify sequence shows the chip's two identification bytes to the next load, once; a
      reset hides them. */
  lemma IdentifyWorks(m: seq<byte>, t: seq<Access>, a1: offset, a2: offset, a3: offset, last: Access, untouched: byte)
    requires |m| == 0x8_0000 && Survives(t) && LookBack(t) == Reading
    requires a1 % 0x800 == a3 % 0x800 == 0x555 && a2 % 0x800 == 0x2AA && (last.Write? ==> last.data == 0xF0)
    ensures var t3 := t + [Write(a1, 0xAA), Write(a2, 0x55), Write(a3, 0x90)];
      && Survives(t3)
      && LoadValue(PhaseAfter(t3).state, last.at, untouched) == (if last.at % 2 == 1 then 0xA4 else 0x01)
      && Survives(t3 + [last]) && LookBack(t3 + [last]) == Reading
      && LoadValue(PhaseAfter(t3 + [last]).state, last.at, untouched) == untouched
      && MemoryAfter(m, t3 + [last]) == MemoryAfter(m, t)
  {
    UnlockSequence(m, t, a1, a2, a3, 0x90);
    var t3 := t + [Write(a1, 0xAA), Write(a2, 0x55), Write(a3, 0x90)];
    OneMore(m, t3, last);
    StateByLookingBack(t3 + [last]);
  }

  // ---------------------------------------------------------------- the aperture

  /** The two flash slots cover this range; both halves are the same chip. */
  predicate InAperture(phys: nat) {
    0x340_0000 <= phys < 0x350_0000
  }

  function ChipOffset(phys: nat): (o: offset) {
    phys % 0x8_0000
  }

  lemma ApertureAliases(phys: nat)
    requires 0x340_0000 <= phys < 0x348_0000
    ensures ChipOffset(phys) == phys - 0x340_0000 && ChipOffset(phys + 0x8_0000) == ChipOffset(phys)
  {
  }
}
