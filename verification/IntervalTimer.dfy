/** The timer's command and register handlers, each proved to take one Timer step of every channel. */
module IntervalTimer {
  import opened Words
  import opened Timer

  class ProgrammableIntervalTimer {
    var timerPrescaler: word
    const state: array<Channel>

    predicate Valid(now: nat)
      reads this, state
    {
      state.Length == 3 && forall k :: 0 <= k < 3 ==> Sound(state[k]) && state[k].lastRecord <= now
    }

    /** Resolving divides by the prescaler as soon as a channel is running. */
    predicate Resolvable(now: nat)
      reads this, state
    {
      Valid(now) && forall k :: 0 <= k < 3 ==> Timely(state[k], now, timerPrescaler)
    }

    constructor (now: nat)
      ensures Valid(now) && fresh(state) && timerPrescaler == 2
      ensures forall k :: 0 <= k < 3 ==>
        state[k] == Channel(now, 0, 0, 0, false, true, false, LowByteHighByte, 0, false, LowByte, LowByte, false)
    {
      timerPrescaler := 2;
      var idle := IDLE.(lastRecord := now);
      state := new Channel[3](_ => idle);
    }

    /** Bring the channels up to date, with the wrap-around done in closed form. */
    method ResolveTimers(now: nat)
      requires Resolvable(now)
      modifies state
      ensures Valid(now)
      ensures forall k :: 0 <= k < 3 ==> state[k] == Resolve(old(state[k]), now, timerPrescaler)
    {
      for i := 0 to 3
        invariant forall k :: 0 <= k < i ==> state[k] == Resolve(old(state[k]), now, timerPrescaler)
        invariant forall k :: i <= k < 3 ==> state[k] == old(state[k])
      {
        state[i] := Resolved(state[i], now);
      }
    }

    method Resolved(c: Channel, now: nat) returns (r: Channel)
      requires Timely(c, now, timerPrescaler)
      ensures r == Resolve(c, now, timerPrescaler)
    {
      r := c;
      if r.waitingForLoad {
        return;
      }
      var elapsed := now - r.lastRecord;
      r := r.(lastRecord := now);
      var ticks := elapsed / (40 * timerPrescaler as int);
      WholePeriodsIsDiv(elapsed, Period(timerPrescaler));
      FastForwardCounts(r.value, r.reload, ticks);
      if ticks > r.value {
        ticks := ticks - r.value;
        ticks := ticks % (r.reload + 1);
        r := r.(value := r.reload - ticks, pendingLoad := false);
      } else {
        r := r.(value := r.value - ticks);
      }
    }

    method SetPrescaler(now: nat, prescaler: word)
      requires Resolvable(now)
      modifies this, state
      ensures Valid(now) && timerPrescaler == prescaler
      ensures forall k :: 0 <= k < 3 ==>
        state[k] == StepChannel(old(state[k]), k, now, old(timerPrescaler), Prescale(prescaler))
    {
      ResolveTimers(now);
      timerPrescaler := prescaler;
    }

    /** The read-back command, on the channels it selects. */
    method ReadBackCommand(b: byte)
      requires state.Length == 3 && b / 64 == 3
      modifies state
      ensures forall k :: 0 <= k < 3 ==>
        state[k] == if Concerns(b, k) then ReadBack(old(state[k]), b) else old(state[k])
    {
      for i := 0 to 3
        invariant forall k :: 0 <= k < i ==>
          state[k] == if Concerns(b, k) then ReadBack(old(state[k]), b) else old(state[k])
        invariant forall k :: i <= k < 3 ==> state[k] == old(state[k])
      {
        if (i == 0 && b / 2 % 2 == 0) || (i == 1 && b / 4 % 2 == 0) || (i == 2 && b / 8 % 2 == 0) {
          continue;
        }
        var c := state[i];
        if b / 16 % 2 == 0 {
          c := c.(accessByte := StatusByte);
        } else {
          c := c.(accessByte := if c.accessMode == HighByteOnly then HighByte else LowByte);
        }
        if b / 32 % 2 == 0 {
          c := c.(latch := c.value, latched := true);
        }
        state[i] := c;
      }
    }

    /** The counter latch and the configuration of one channel. */
    method ChannelCommand(b: byte)
      requires state.Length == 3 && b / 64 < 3
      modifies state
      ensures forall k :: 0 <= k < 3 ==>
        state[k] == if Concerns(b, k) then OnCommand(old(state[k]), b) else old(state[k])
    {
      var channel, mode := b / 64, AccessModeOf(b);
      var c := state[channel];
      if mode == LatchCountValue {
        state[channel] := c.(latch := c.value, latched := true);
      } else {
        c := c.(accessMode := mode, operatingMode := b / 2 % 8, bcd := b % 2 == 1, waitingForLoad := true);
        if mode == HighByteOnly {
          c := c.(accessByte := HighByte, writeByte := HighByte);
        } else {
          c := c.(accessByte := LowByte, writeByte := LowByte);
        }
        state[channel] := c;
      }
    }

    /** The control word: read-back of any channels, or latch or configure one. */
    method WriteCommand(now: nat, b: byte)
      requires Resolvable(now)
      modifies state
      ensures Valid(now)
      ensures forall k :: 0 <= k < 3 ==>
        state[k] == StepChannel(old(state[k]), k, now, timerPrescaler, Command(b))
    {
      ResolveTimers(now);
      forall k | 0 <= k < 3
        ensures Sound(OnCommand(state[k], b)) && OnCommand(state[k], b).lastRecord == state[k].lastRecord
      {
        CommandKeepsSound(state[k], b);
      }
      if b / 64 == 3 {
        ReadBackCommand(b);
      } else {
        ChannelCommand(b);
      }
    }

    /** A byte of a channel's count. */
    method WriteRegister(now: nat, t: index, b: byte)
      requires Valid(now)
      modifies state
      ensures Valid(now)
      ensures forall k :: 0 <= k < 3 ==>
        state[k] == StepChannel(old(state[k]), k, now, timerPrescaler, Op.WriteRegister(t, b))
    {
      StoreKeepsSound(state[t], b, now);
      state[t] := Stored(state[t], now, b);
    }

    /** The channel with a byte of its count stored. */
    method Stored(c0: Channel, now: nat, b: byte) returns (c: Channel)
      requires c0.writeByte != StatusByte
      ensures c == StoreByte(c0, b, now)
    {
      c := c0.(pendingLoad := true);
      if c.writeByte == LowByte {
        c := c.(reload := if !c.bcd then c.reload / 0x100 * 0x100 + b else (c.reload - c.reload % 100 + b) % 0x1_0000);
        if c.accessMode == LowByteHighByte {
          c := c.(writeByte := HighByte);
        } else if c.waitingForLoad {
          c := c.(waitingForLoad := false, pendingLoad := false, value := c.reload, lastRecord := now);
        }
      } else {
        c := c.(reload := if !c.bcd then b as int * 0x100 + c.reload % 0x100 else 100 * b as int + c.reload % 100);
        if c.accessMode == LowByteHighByte {
          c := c.(writeByte := LowByte);
        }
        if c.waitingForLoad {
          c := c.(waitingForLoad := false, pendingLoad := false, value := c.reload, lastRecord := now);
        }
      }
    }

    /** The next byte of a channel's count or status. */
    method ReadRegister(now: nat, t: index) returns (value: byte)
      requires Resolvable(now)
      modifies state
      ensures Valid(now)
      ensures value == ReadByte(Count(old(state[t])), Resolve(old(state[t]), now, timerPrescaler))
      ensures forall k :: 0 <= k < 3 ==>
        state[k] == StepChannel(old(state[k]), k, now, timerPrescaler, Op.ReadRegister(t))
    {
      var count := if state[t].latched then state[t].latch else state[t].value;
      ResolveTimers(now);
      ReadKeepsSound(state[t]);
      value := ByteOf(count, state[t]);
      state[t] := AfterByte(state[t]);
    }

    /** The selected byte of a count, or the status. */
    method ByteOf(count: word, c: Channel) returns (value: byte)
      ensures value == ReadByte(count, c)
    {
      match c.accessByte
      case LowByte => value := if !c.bcd then count % 0x100 else count % 100;
      case HighByte => value := if !c.bcd then count / 0x100 % 0x100 else count / 100 % 0x100;
      case StatusByte => value := ReadByte(count, c);
    }

    /** The channel with the next byte selected. */
    method AfterByte(c: Channel) returns (r: Channel)
      ensures r == NextByte(c)
    {
      match c.accessByte
      case LowByte =>
        r := if c.accessMode == LowByteOnly then c.(latched := false) else c.(accessByte := HighByte);
      case HighByte =>
        r := c.(latched := false);
        if c.accessMode != HighByteOnly {
          r := r.(accessByte := LowByte);
        }
      case StatusByte =>
        r := c.(accessByte := if c.accessMode == HighByteOnly then HighByte else LowByte);
    }
  }
}
