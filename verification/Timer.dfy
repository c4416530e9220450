/**
 The 8254-style timer, one channel at a time: an access reads or changes a channel only through
 StepChannel, so what holds of one channel over its steps holds whatever the other two do.
 */
module Timer {
  import opened Words

  datatype AccessMode = LatchCountValue | LowByteOnly | HighByteOnly | LowByteHighByte

  datatype ByteSelect = LowByte | HighByte | StatusByte

  type mode = m: int | 0 <= m < 8

  datatype Channel = Channel(
    lastRecord: nat,
    value: word,
    latch: word,
    reload: word,
    pendingLoad: bool,
    waitingForLoad: bool,
    outputState: bool,
    accessMode: AccessMode,
    operatingMode: mode,
    bcd: bool,
    writeByte: ByteSelect,
    accessByte: ByteSelect,
    latched: bool)

  // ---------------------------------------------------------------- counting

  /** The counter after `ticks`, in closed form, as the code has it. */
  function FastForward(value: word, reload: word, ticks: nat): word {
    if ticks > value then reload - (ticks - value) % (reload + 1) else value - ticks
  }

  /** One tick of a counter that goes from zero to its reload value. */
  function Tick(value: word, reload: word): word {
    if value == 0 then reload else value - 1
  }

  function Ticks(value: word, reload: word, n: nat): word {
    if n == 0 then value else Tick(Ticks(value, reload, n - 1), reload)
  }

  lemma ModNext(m: nat, d: nat)
    requires d > 0
    ensures (m + 1) % d == if m % d == d - 1 then 0 else m % d + 1
  {
    var q, r := m / d, m % d;
    assert m == q * d + r;
    if r == d - 1 {
      assert m + 1 == (q + 1) * d + 0;
      DivModUnique(m + 1, q + 1, 0, d);
    } else {
      DivModUnique(m + 1, q, r + 1, d);
    }
  }

  lemma {:induction false} TicksBeforeWrap(value: word, reload: word, n: nat)
    requires n <= value
    ensures Ticks(value, reload, n) == value - n
  {
    if n > 0 {
      TicksBeforeWrap(value, reload, n - 1);
    }
  }

  lemma {:induction false} TicksPastWrap(value: word, reload: word, m: nat)
    ensures Ticks(value, reload, value + 1 + m) == reload - m % (reload + 1)
  {
    if m == 0 {
      TicksBeforeWrap(value, reload, value);
      assert Ticks(value, reload, value + 1) == Tick(Ticks(value, reload, value), reload);
      DivModUnique(0, 0, 0, reload + 1);
    } else {
      TicksPastWrap(value, reload, m - 1);
      ModNext(m - 1, reload + 1);
    }
  }

  /** The closed form is the counter before the wrap, and one tick ahead of it past the wrap. */
  lemma FastForwardCounts(value: word, reload: word, ticks: nat)
    ensures FastForward(value, reload, ticks) == Ticks(value, reload, if ticks <= value then ticks else ticks + 1)
  {
    if ticks <= value {
      TicksBeforeWrap(value, reload, ticks);
    } else {
      TicksPastWrap(value, reload, ticks - value);
    }
  }

  /** So it is right exactly up to the wrap, or when the reload value is zero. */
  lemma FastForwardExactly(value: word, reload: word, ticks: nat)
    ensures FastForward(value, reload, ticks) == Ticks(value, reload, ticks) <==> ticks <= value || reload == 0
  {
    FastForwardCounts(value, reload, ticks);
    if ticks > value {
      TicksPastWrap(value, reload, ticks - value - 1);
      assert Ticks(value, reload, ticks + 1) == Tick(Ticks(value, reload, ticks), reload);
      if reload == 0 {
        assert Ticks(value, reload, ticks) <= reload;
      }
    }
  }

  /** Past the wrap it repeats every reload + 1 ticks. */
  lemma FastForwardPeriodic(value: word, reload: word, ticks: nat)
    requires ticks > value
    ensures FastForward(value, reload, ticks + reload + 1) == FastForward(value, reload, ticks)
  {
    var d, m := reload + 1, ticks - value;
    assert m == (m / d) * d + m % d;
    assert m + d == (m / d + 1) * d + m % d;
    DivModUnique(m + d, m / d + 1, m % d, d);
  }

  /** The whole periods in a time, and what is left over: `/` and `%`, by recursion because the
      period is not a constant and most proofs only need that the two agree. */
  function WholePeriods(time: nat, period: nat): nat
    requires period > 0
  {
    if time < period then 0 else 1 + WholePeriods(time - period, period)
  }

  function LeftOver(time: nat, period: nat): nat
    requires period > 0
  {
    if time < period then time else LeftOver(time - period, period)
  }

  lemma {:induction false} WholePeriodsIsDiv(time: nat, period: nat)
    requires period > 0
    ensures WholePeriods(time, period) == time / period && LeftOver(time, period) == time % period
  {
    if time < period {
      DivUnique(time, 0, time, period);
      DivModUnique(time, 0, time, period);
    } else {
      WholePeriodsIsDiv(time - period, period);
      var q, r := (time - period) / period, (time - period) % period;
      assert time - period == q * period + r;
      assert time == (q + 1) * period + r;
      DivUnique(time, q + 1, r, period);
      DivModUnique(time, q + 1, r, period);
    }
  }

  // ---------------------------------------------------------------- steps of a channel

  /** A running channel divides by the prescaler. */
  predicate Timely(c: Channel, now: nat, prescaler: word) {
    c.lastRecord <= now && (prescaler > 0 || c.waitingForLoad)
  }

  function Period(prescaler: word): (p: nat)
    ensures prescaler > 0 ==> p > 0
  {
    40 * prescaler as int
  }

  /** A channel brought up to date: the 25 MHz clock has a 40 ns period. Past a wrap the counter is
      one tick ahead (FastForwardCounts). */
  function Resolve(c: Channel, now: nat, prescaler: word): Channel
    requires Timely(c, now, prescaler)
  {
    if c.waitingForLoad then c
    else
      var ticks := WholePeriods(now - c.lastRecord, Period(prescaler));
      c.(lastRecord := now,
         value := Ticks(c.value, c.reload, if ticks <= c.value then ticks else ticks + 1),
         pendingLoad := c.pendingLoad && ticks <= c.value)
  }

  /** What resolving does, as the code has it. */
  lemma ResolveExactly(c: Channel, now: nat, prescaler: word)
    requires c.lastRecord <= now && prescaler > 0 && !c.waitingForLoad
    ensures var ticks := (now - c.lastRecord) / (40 * prescaler as int);
      Resolve(c, now, prescaler) ==
        c.(lastRecord := now, value := FastForward(c.value, c.reload, ticks),
           pendingLoad := c.pendingLoad && ticks <= c.value as int)
  {
    WholePeriodsIsDiv(now - c.lastRecord, Period(prescaler));
    FastForwardCounts(c.value, c.reload, WholePeriods(now - c.lastRecord, Period(prescaler)));
  }

  function FirstByte(m: AccessMode): ByteSelect {
    if m == HighByteOnly then HighByte else LowByte
  }

  function LatchCount(c: Channel): Channel {
    c.(latch := c.value, latched := true)
  }

  function AccessModeOf(b: byte): AccessMode {
    match b / 16 % 4
    case 0 => LatchCountValue
    case 1 => LowByteOnly
    case 2 => HighByteOnly
    case _ => LowByteHighByte
  }

  function Configure(c: Channel, b: byte): Channel {
    c.(accessMode := AccessModeOf(b), operatingMode := b / 2 % 8, bcd := b % 2 == 1, waitingForLoad := true,
       accessByte := FirstByte(AccessModeOf(b)), writeByte := FirstByte(AccessModeOf(b)))
  }

  predicate SelectsStatus(b: byte) {
    b / 16 % 2 == 0
  }

  predicate SelectsCount(b: byte) {
    b / 32 % 2 == 0
  }

  function ReadBack(c: Channel, b: byte): Channel {
    var c' := c.(accessByte := if SelectsStatus(b) then StatusByte else FirstByte(c.accessMode));
    if SelectsCount(b) then LatchCount(c') else c'
  }

  /** Whether a command byte is about channel `k`. */
  predicate Concerns(b: byte, k: nat)
    requires k < 3
  {
    if b / 64 == 3 then (match k case 0 => b / 2 % 2 case 1 => b / 4 % 2 case _ => b / 8 % 2) == 1
    else b / 64 == k
  }

  function OnCommand(c: Channel, b: byte): Channel {
    if b / 64 == 3 then ReadBack(c, b)
    else if AccessModeOf(b) == LatchCountValue then LatchCount(c)
    else Configure(c, b)
  }

  /** A control word by its fields: channel, access, operating mode and number format. Access 0
      latches the count of that channel, the others configure it. */
  lemma ControlWordExactly(c: Channel, b: byte, ch: index, access: nat, operating: mode, bcd: bool, k: index)
    requires access < 4 && b == 64 * ch as int + 16 * access + 2 * operating as int + if bcd then 1 else 0
    ensures Concerns(b, k) <==> k == ch
    ensures OnCommand(c, b) ==
      if access == 0 then c.(latch := c.value, latched := true)
      else c.(accessMode := if access == 1 then LowByteOnly else if access == 2 then HighByteOnly else LowByteHighByte,
              operatingMode := operating, bcd := bcd, waitingForLoad := true,
              accessByte := if access == 2 then HighByte else LowByte,
              writeByte := if access == 2 then HighByte else LowByte)
  {
    assert b / 64 == ch && b / 16 % 4 == access && b / 2 % 8 == operating && (b % 2 == 1 <==> bcd);
  }

  /** A read-back word by its fields: it acts on any of the three channels, and clear bits 5 and 4
      ask for the count and the status. */
  lemma ReadBackWordExactly(c: Channel, b: byte, count: bool, status: bool, c0: bool, c1: bool, c2: bool, k: index)
    requires b == 192 + (if count then 0 else 32) + (if status then 0 else 16)
                  + (if c2 then 8 else 0) + (if c1 then 4 else 0) + (if c0 then 2 else 0)
    ensures Concerns(b, k) <==> if k == 0 then c0 else if k == 1 then c1 else c2
    ensures OnCommand(c, b) ==
      c.(accessByte := if status then StatusByte else if c.accessMode == HighByteOnly then HighByte else LowByte,
         latch := if count then c.value else c.latch, latched := count || c.latched)
  {
  }

  /** The reload value with one byte replaced; BCD channels count in decimal. */
  function StoreLow(reload: word, bcd: bool, b: byte): word {
    if !bcd then reload / 0x100 * 0x100 + b else (reload - reload % 100 + b) % 0x1_0000
  }

  function StoreHigh(reload: word, bcd: bool, b: byte): word {
    if !bcd then b as int * 0x100 + reload % 0x100 else 100 * b as int + reload % 100
  }

  function Loaded(c: Channel, now: nat): Channel {
    if c.waitingForLoad
    then c.(waitingForLoad := false, pendingLoad := false, value := c.reload, lastRecord := now)
    else c
  }

  function StoreByte(c: Channel, b: byte, now: nat): Channel {
    match c.writeByte
    case LowByte =>
      var c' := c.(pendingLoad := true, reload := StoreLow(c.reload, c.bcd, b));
      if c.accessMode == LowByteHighByte then c'.(writeByte := HighByte) else Loaded(c', now)
    case HighByte =>
      var c' := c.(pendingLoad := true, reload := StoreHigh(c.reload, c.bcd, b));
      Loaded(if c.accessMode == LowByteHighByte then c'.(writeByte := LowByte) else c', now)
    case StatusByte => c.(pendingLoad := true)
  }

  function NextByte(c: Channel): Channel {
    match c.accessByte
    case LowByte =>
      if c.accessMode == LowByteOnly then c.(latched := false) else c.(accessByte := HighByte)
    case HighByte =>
      c.(latched := false, accessByte := if c.accessMode != HighByteOnly then LowByte else HighByte)
    case StatusByte => c.(accessByte := FirstByte(c.accessMode))
  }

  /** The two bytes of a count as a channel reads them. */
  function LowOf(v: word, bcd: bool): byte {
    if !bcd then v % 0x100 else v % 100
  }

  function HighOf(v: word, bcd: bool): byte {
    if !bcd then v / 0x100 else v / 100 % 0x100
  }

  function Radix(bcd: bool): nat {
    if bcd then 100 else 0x100
  }

  /** They make up the count exactly in binary, or in decimal below 25600. */
  lemma BytesReadExactly(v: word, bcd: bool)
    ensures LowOf(v, bcd) + Radix(bcd) * HighOf(v, bcd) == v <==> !bcd || v < 25600
  {
    var q := v / 100;
    assert v == 100 * q + v % 100;
    assert q % 0x100 == q <==> q < 0x100;
  }

  /** The reload value after both bytes of a count were stored. */
  function StoreBoth(reload: word, bcd: bool, lo: byte, hi: byte): word {
    StoreHigh(StoreLow(reload, bcd, lo), bcd, hi)
  }

  /** It is the count they make up exactly in binary, or in decimal when the low byte is below 100
      and the reload value that was there leaves room for it in 16 bits. */
  lemma BytesStoredExactly(reload: word, bcd: bool, lo: byte, hi: byte)
    ensures StoreBoth(reload, bcd, lo, hi) == Radix(bcd) * hi + lo
      <==> !bcd || (lo < 100 && reload - reload % 100 + lo < 0x1_0000)
  {
    if bcd {
      DecimalLowByte(reload, lo);
    } else {
      assert (reload / 0x100 * 0x100 + lo) % 0x100 == lo;
    }
  }

  lemma DecimalLowByte(reload: word, lo: byte)
    ensures StoreLow(reload, true, lo) % 100 == lo <==> lo < 100 && reload - reload % 100 + lo < 0x1_0000
  {
    var tens := reload / 100;
    assert reload - reload % 100 == 100 * tens;
    if lo < 100 && 100 * tens + lo < 0x1_0000 {
      DivModUnique(100 * tens + lo, tens, lo, 100);
    } else if lo < 100 {
      assert tens == 655;
    }
  }

  /** The byte a read gives; the count is taken before the timers are resolved, the status after. */
  function ReadByte(count: word, c: Channel): byte {
    match c.accessByte
    case LowByte => LowOf(count, c.bcd)
    case HighByte => HighOf(count, c.bcd)
    case StatusByte =>
      (if c.bcd then 1 else 0) + 2 * c.operatingMode
      + 16 * (match c.accessMode
              case LatchCountValue => 0 case LowByteOnly => 1 case HighByteOnly => 2 case LowByteHighByte => 3)
      + (if c.pendingLoad || c.waitingForLoad then 64 else 0) + (if c.outputState then 128 else 0)
  }

  /** The status byte's fields. */
  lemma StatusExactly(c: Channel, count: word)
    requires c.accessByte == StatusByte
    ensures var v := ReadByte(count, c);
      && (v % 2 == 1 <==> c.bcd) && v / 2 % 8 == c.operatingMode
      && v / 16 % 4 == (match c.accessMode
                        case LatchCountValue => 0 case LowByteOnly => 1 case HighByteOnly => 2
                        case LowByteHighByte => 3)
      && (v / 64 % 2 == 1 <==> c.pendingLoad || c.waitingForLoad) && (v / 128 == 1 <==> c.outputState)
  {
    Fields(if c.bcd then 1 else 0, c.operatingMode,
           match c.accessMode
           case LatchCountValue => 0 case LowByteOnly => 1 case HighByteOnly => 2 case LowByteHighByte => 3,
           if c.pendingLoad || c.waitingForLoad then 1 else 0, if c.outputState then 1 else 0);
  }

  lemma Fields(format: nat, operating: nat, access: nat, unloaded: nat, output: nat)
    requires format < 2 && operating < 8 && access < 4 && unloaded < 2 && output < 2
    ensures var v := format + 2 * operating + 16 * access + 64 * unloaded + 128 * output;
      v % 2 == format && v / 2 % 8 == operating && v / 16 % 4 == access && v / 64 % 2 == unloaded && v / 128 == output
  {
    var v := format + 2 * operating + 16 * access + 64 * unloaded + 128 * output;
    var tops: nat := access + 4 * unloaded + 8 * output;
    assert v / 2 == 8 * tops + operating;
    assert v / 16 == tops;
    assert v / 64 == unloaded + 2 * output;
  }

  function Count(c: Channel): word {
    if c.latched then c.latch else c.value
  }

  type index = t: int | 0 <= t < 3

  datatype Op = Command(b: byte) | WriteRegister(t: index, b: byte) | ReadRegister(t: index) | Prescale(p: word)

  /** What an access does to channel `k`. */
  function StepChannel(c: Channel, k: index, now: nat, prescaler: word, op: Op): Channel
    requires c.lastRecord <= now && (op.WriteRegister? || Timely(c, now, prescaler))
  {
    match op
    case Command(b) => var r := Resolve(c, now, prescaler); if Concerns(b, k) then OnCommand(r, b) else r
    case WriteRegister(t, b) => if t == k then StoreByte(c, b, now) else c
    case ReadRegister(t) => var r := Resolve(c, now, prescaler); if t == k then NextByte(r) else r
    case Prescale(_) => Resolve(c, now, prescaler)
  }

  // ---------------------------------------------------------------- what every step keeps

  /** A channel never has the latch code for an access mode, and one that uses a single byte never
      selects the other one. */
  predicate Sound(c: Channel) {
    && c.accessMode != LatchCountValue
    && c.writeByte != StatusByte
    && (c.accessMode == LowByteOnly ==> c.writeByte == LowByte && c.accessByte != HighByte)
    && (c.accessMode == HighByteOnly ==> c.writeByte == HighByte && c.accessByte != LowByte)
  }

  lemma StepKeepsSound(c: Channel, k: index, now: nat, prescaler: word, op: Op)
    requires Sound(c) && c.lastRecord <= now && (op.WriteRegister? || Timely(c, now, prescaler))
    ensures Sound(StepChannel(c, k, now, prescaler, op))
    ensures StepChannel(c, k, now, prescaler, op).lastRecord <= now
  {
    match op
    case Command(b) => CommandKeepsSound(Resolve(c, now, prescaler), b);
    case WriteRegister(_, b) => StoreKeepsSound(c, b, now);
    case ReadRegister(_) => ReadKeepsSound(Resolve(c, now, prescaler));
    case Prescale(_) =>
  }

  lemma CommandKeepsSound(c: Channel, b: byte)
    requires Sound(c)
    ensures Sound(OnCommand(c, b)) && OnCommand(c, b).lastRecord == c.lastRecord
  {
  }

  lemma StoreKeepsSound(c: Channel, b: byte, now: nat)
    requires Sound(c) && c.lastRecord <= now
    ensures Sound(StoreByte(c, b, now)) && StoreByte(c, b, now).lastRecord <= now
  {
  }

  lemma ReadKeepsSound(c: Channel)
    requires Sound(c)
    ensures Sound(NextByte(c)) && NextByte(c).lastRecord == c.lastRecord
  {
  }

  // ---------------------------------------------------------------- runs of a channel

  /** A channel with the clock and the prescaler it runs by. */
  datatype Running = Running(c: Channel, now: nat, prescaler: word)

  datatype Timed = Timed(dt: nat, op: Op)

  predicate Valid(x: Running) {
    Sound(x.c) && x.c.lastRecord <= x.now && x.prescaler > 0
  }

  /** With a prescaler of zero the next access to a running channel would divide by zero. */
  predicate Legal(e: Timed) {
    e.op.Prescale? ==> e.op.p > 0
  }

  function Step(x: Running, k: index, e: Timed): (r: Running)
    requires Valid(x) && Legal(e)
    ensures Valid(r)
  {
    var now := x.now + e.dt;
    StepKeepsSound(x.c, k, now, x.prescaler, e.op);
    var c := StepChannel(x.c, k, now, x.prescaler, e.op);
    Running(c, now, if e.op.Prescale? then e.op.p else x.prescaler)
  }

  predicate AllLegal(es: seq<Timed>) {
    forall i :: 0 <= i < |es| ==> Legal(es[i])
  }

  /** Every run keeps a channel sound: see the contract. */
  function Run(x: Running, k: index, es: seq<Timed>): (r: Running)
    requires Valid(x) && AllLegal(es)
    ensures Valid(r)
    decreases |es|
  {
    if es == [] then x else Run(Step(x, k, es[0]), k, es[1..])
  }

  // ---------------------------------------------------------------- latched reads

  /** Accesses that neither read channel `k` nor give it a command: time, stores to any register,
      anything about the other channels. */
  predicate LeavesReading(e: Timed, k: index) {
    (e.op.Command? ==> !Concerns(e.op.b, k)) && (e.op.ReadRegister? ==> e.op.t != k)
  }

  predicate AllLeave(es: seq<Timed>, k: index) {
    forall i :: 0 <= i < |es| ==> LeavesReading(es[i], k)
  }

  /** A channel configured as `of`, with a byte selected. */
  predicate Selecting(c: Channel, of: Channel, at: ByteSelect) {
    && c.accessMode == of.accessMode && c.accessByte == at
    && c.bcd == of.bcd && c.operatingMode == of.operatingMode && c.outputState == of.outputState
  }

  predicate Holding(c: Channel, of: Channel, count: word, at: ByteSelect) {
    Selecting(c, of, at) && c.latched && c.latch == count
  }

  /** The selected byte, and the latch if there is one, stay whatever is done otherwise. */
  lemma {:induction false} SelectingIsKept(x: Running, k: index, es: seq<Timed>, of: Channel, at: ByteSelect)
    requires Valid(x) && AllLegal(es) && AllLeave(es, k) && Selecting(x.c, of, at)
    ensures var c := Run(x, k, es).c; Selecting(c, of, at) && c.latched == x.c.latched && c.latch == x.c.latch
    decreases |es|
  {
    if es != [] {
      SelectingStep(x, k, es[0], of, at);
      SelectingIsKept(Step(x, k, es[0]), k, es[1..], of, at);
    }
  }

  lemma SelectingStep(x: Running, k: index, e: Timed, of: Channel, at: ByteSelect)
    requires Valid(x) && Legal(e) && LeavesReading(e, k) && Selecting(x.c, of, at)
    ensures var c := Step(x, k, e).c; Selecting(c, of, at) && c.latched == x.c.latched && c.latch == x.c.latch
  {
    if e.op.WriteRegister? {
      StoreKeepsSelecting(x.c, e.op.b, x.now + e.dt, of, at);
    }
  }

  lemma StoreKeepsSelecting(c: Channel, b: byte, now: nat, of: Channel, at: ByteSelect)
    requires Selecting(c, of, at)
    ensures var c' := StoreByte(c, b, now); Selecting(c', of, at) && c'.latched == c.latched && c'.latch == c.latch
  {
    StoreKeepsReading(c, b, now);
  }

  lemma StoreKeepsReading(c: Channel, b: byte, now: nat)
    ensures var c' := StoreByte(c, b, now);
      (c'.accessMode, c'.accessByte, c'.bcd, c'.operatingMode, c'.outputState, c'.latched, c'.latch)
      == (c.accessMode, c.accessByte, c.bcd, c.operatingMode, c.outputState, c.latched, c.latch)
  {
    match c.writeByte
    case LowByte =>
    case HighByte =>
    case StatusByte =>
  }

  /** A read of a held count gives its byte and selects the next one. */
  lemma HeldRead(x: Running, k: index, dt: nat, of: Channel, count: word, at: ByteSelect)
    requires Valid(x) && Holding(x.c, of, count, at) && of.accessMode == LowByteHighByte
    ensures var c := Step(x, k, Timed(dt, ReadRegister(k))).c;
      match at
      case StatusByte => Holding(c, of, count, LowByte) && ReadAfter(x, dt) == Status(of, Unloaded(x, dt))
      case LowByte => Holding(c, of, count, HighByte) && ReadAfter(x, dt) == LowOf(count, of.bcd)
      case HighByte => Selecting(c, of, LowByte) && !c.latched && ReadAfter(x, dt) == HighOf(count, of.bcd)
  {
  }

  /** The status byte of a two-byte channel: number format, operating mode, access mode 3, whether a
      stored count has yet to be taken, and the output. */
  function Status(of: Channel, unloaded: bool): nat {
    (if of.bcd then 1 else 0) + 2 * of.operatingMode as int + 48
    + (if unloaded then 64 else 0) + (if of.outputState then 128 else 0)
  }

  /** Whether a stored count has yet to be taken, at a time; the status is not latched. */
  predicate Unloaded(x: Running, dt: nat)
    requires Valid(x)
  {
    var c := Resolve(x.c, x.now + dt, x.prescaler);
    c.pendingLoad || c.waitingForLoad
  }

  predicate IsLatchCommand(b: byte, k: index) {
    b / 64 == k && b / 16 % 4 == 0
  }

  /** A counter latch holds the resolved value. */
  lemma LatchHolds(x: Running, k: index, latch: Timed, at: ByteSelect)
    requires Valid(x) && latch.op.Command? && IsLatchCommand(latch.op.b, k)
    requires x.c.accessMode == LowByteHighByte && x.c.accessByte == at
    ensures Holding(Step(x, k, latch).c, x.c, Resolve(x.c, x.now + latch.dt, x.prescaler).value, at)
  {
  }

  /** A read-back of status and count holds the resolved value and selects the status. */
  lemma ReadBackHolds(x: Running, k: index, back: Timed)
    requires Valid(x) && back.op.Command? && back.op.b / 64 == 3 && Concerns(back.op.b, k)
    requires SelectsStatus(back.op.b) && SelectsCount(back.op.b)
    requires x.c.accessMode == LowByteHighByte
    ensures Holding(Step(x, k, back).c, x.c, Resolve(x.c, x.now + back.dt, x.prescaler).value, StatusByte)
  {
  }

  /** The byte a read of channel `k` gives, `dt` after the last access. */
  function ReadAfter(x: Running, dt: nat): byte
    requires Valid(x)
  {
    ReadByte(Count(x.c), Resolve(x.c, x.now + dt, x.prescaler))
  }

  /** Latched reads are tear-free: after a counter latch at the low byte, the next two reads of the
      channel give the two bytes of the value at the latch, whatever comes between; in binary they
      always make it up, in decimal exactly below 25600. */
  lemma LatchedReadIsWhole(x: Running, k: index, latch: Timed, es1: seq<Timed>, dt1: nat, es2: seq<Timed>, dt2: nat)
    requires Valid(x) && latch.op.Command? && IsLatchCommand(latch.op.b, k)
    requires x.c.accessMode == LowByteHighByte && x.c.accessByte == LowByte
    requires AllLegal(es1) && AllLeave(es1, k) && AllLegal(es2) && AllLeave(es2, k)
    ensures var x1 := Run(Step(x, k, latch), k, es1);
      var x2 := Run(Step(x1, k, Timed(dt1, ReadRegister(k))), k, es2);
      var v := Resolve(x.c, x.now + latch.dt, x.prescaler).value;
      && ReadAfter(x1, dt1) == LowOf(v, x.c.bcd) && ReadAfter(x2, dt2) == HighOf(v, x.c.bcd)
      && (ReadAfter(x1, dt1) + Radix(x.c.bcd) * ReadAfter(x2, dt2) == v <==> !x.c.bcd || v < 25600)
  {
    var count := Resolve(x.c, x.now + latch.dt, x.prescaler).value;
    BytesReadExactly(count, x.c.bcd);
    LatchHolds(x, k, latch, LowByte);
    SelectingIsKept(Step(x, k, latch), k, es1, x.c, LowByte);
    var x1 := Run(Step(x, k, latch), k, es1);
    HeldRead(x1, k, dt1, x.c, count, LowByte);
    var x1' := Step(x1, k, Timed(dt1, ReadRegister(k)));
    SelectingIsKept(x1', k, es2, x.c, HighByte);
    HeldRead(Run(x1', k, es2), k, dt2, x.c, count, HighByte);
  }

  /** At the high byte a latch is not tear-free: the next read gives the high byte of the latched
      value and releases the latch, so the one after it gives the low byte of the running count.
      The two make up the latched value exactly when that byte happens to be the same. */
  lemma LatchAtHighByteTears(x: Running, k: index, latch: Timed, es1: seq<Timed>, dt1: nat, es2: seq<Timed>, dt2: nat)
    requires Valid(x) && latch.op.Command? && IsLatchCommand(latch.op.b, k)
    requires x.c.accessMode == LowByteHighByte && x.c.accessByte == HighByte
    requires AllLegal(es1) && AllLeave(es1, k) && AllLegal(es2) && AllLeave(es2, k)
    ensures var x1 := Run(Step(x, k, latch), k, es1);
      var x2 := Run(Step(x1, k, Timed(dt1, ReadRegister(k))), k, es2);
      var v := Resolve(x.c, x.now + latch.dt, x.prescaler).value;
      && ReadAfter(x1, dt1) == HighOf(v, x.c.bcd) && ReadAfter(x2, dt2) == LowOf(x2.c.value, x.c.bcd)
      && (ReadAfter(x2, dt2) + Radix(x.c.bcd) * ReadAfter(x1, dt1) == v
          <==> LowOf(x2.c.value, x.c.bcd) == LowOf(v, x.c.bcd) && (!x.c.bcd || v < 25600))
  {
    var count := Resolve(x.c, x.now + latch.dt, x.prescaler).value;
    LatchHolds(x, k, latch, HighByte);
    SelectingIsKept(Step(x, k, latch), k, es1, x.c, HighByte);
    var x1 := Run(Step(x, k, latch), k, es1);
    HeldRead(x1, k, dt1, x.c, count, HighByte);
    var x1' := Step(x1, k, Timed(dt1, ReadRegister(k)));
    SelectingIsKept(x1', k, es2, x.c, LowByte);
    PairExactly(count, Run(x1', k, es2).c.value, x.c.bcd);
  }

  lemma PairExactly(v: word, w: word, bcd: bool)
    ensures LowOf(w, bcd) + Radix(bcd) * HighOf(v, bcd) == v
      <==> LowOf(w, bcd) == LowOf(v, bcd) && (!bcd || v < 25600)
  {
    BytesReadExactly(v, bcd);
    if bcd && v >= 25600 {
      assert HighOf(v, bcd) <= 255;
    }
  }

  /** A channel that uses one byte only gives that byte of the latched value, whatever comes between,
      and then releases the latch. */
  lemma OneByteLatchedRead(x: Running, k: index, latch: Timed, es: seq<Timed>, dt: nat)
    requires Valid(x) && latch.op.Command? && IsLatchCommand(latch.op.b, k)
    requires x.c.accessMode != LowByteHighByte && x.c.accessByte != StatusByte && AllLegal(es) && AllLeave(es, k)
    ensures var x1 := Run(Step(x, k, latch), k, es);
      var c, v := Step(x1, k, Timed(dt, ReadRegister(k))).c, Resolve(x.c, x.now + latch.dt, x.prescaler).value;
      && ReadAfter(x1, dt) == (if x.c.accessMode == LowByteOnly then LowOf(v, x.c.bcd) else HighOf(v, x.c.bcd))
      && !c.latched && c.accessByte == x.c.accessByte
  {
    SelectingIsKept(Step(x, k, latch), k, es, x.c, x.c.accessByte);
  }

  /** And it happens: a guest that loads 0x100, reads one byte, and latches gets 1 from its next read
      and, when a tick has passed, FF from the one after: 0x1FF. */
  lemma TearHappens(x: Running, load: seq<Timed>, latch: seq<Timed>)
    requires x == Running(IDLE, 0, 2)
    requires load == [Timed(0, Command(0x34)), Timed(0, WriteRegister(0, 0)), Timed(0, WriteRegister(0, 1))]
    requires latch == [Timed(0, ReadRegister(0)), Timed(0, Command(0))]
    ensures var r := Run(Run(x, 0, load), 0, latch);
      && r.c.latched && r.c.latch == 0x100 && r.c.accessByte == HighByte
      && ReadAfter(r, 80) == 1 && ReadAfter(Step(r, 0, Timed(80, ReadRegister(0))), 0) == 0xFF
  {
    LoadRun(x, load);
    LatchRun(Run(x, 0, load), latch);
    ReadsTear(Run(Run(x, 0, load), 0, latch));
  }

  const LOADED: Channel := IDLE.(operatingMode := 2, reload := 0x100, value := 0x100, waitingForLoad := false)
  const LATCHED: Channel := LOADED.(accessByte := HighByte, latched := true, latch := 0x100)

  lemma LoadRun(x: Running, es: seq<Timed>)
    requires x == Running(IDLE, 0, 2)
    requires es == [Timed(0, Command(0x34)), Timed(0, WriteRegister(0, 0)), Timed(0, WriteRegister(0, 1))]
    ensures AllLegal(es) && Run(x, 0, es) == Running(LOADED, 0, 2)
  {
    RunOfThree(x, 0, es[0], es[1], es[2]);
    ConfigureStep(x, es[0]);
    StoreSteps(Step(x, 0, es[0]), es[1], es[2]);
  }

  lemma ConfigureStep(x: Running, e: Timed)
    requires x == Running(IDLE, 0, 2) && e == Timed(0, Command(0x34))
    ensures Step(x, 0, e) == x.(c := x.c.(operatingMode := 2))
  {
    IdleConfigured(x.c, e.op.b);
    CommandWhileWaiting(x, 0, e);
  }

  lemma IdleConfigured(c: Channel, b: byte)
    requires c == IDLE && b == 0x34
    ensures Concerns(b, 0) && OnCommand(c, b) == c.(operatingMode := 2)
  {
    ControlWordExactly(c, b, 0, 3, 2, false, 0);
  }

  lemma CommandWhileWaiting(x: Running, k: index, e: Timed)
    requires Valid(x) && Legal(e) && x.c.waitingForLoad && e.op.Command? && Concerns(e.op.b, k)
    ensures Step(x, k, e) == Running(OnCommand(x.c, e.op.b), x.now + e.dt, x.prescaler)
  {
  }

  lemma StoreSteps(x: Running, lo: Timed, hi: Timed)
    requires x == Running(IDLE.(operatingMode := 2), 0, 2)
    requires lo == Timed(0, WriteRegister(0, 0)) && hi == Timed(0, WriteRegister(0, 1))
    ensures Step(Step(x, 0, lo), 0, hi) == Running(LOADED, 0, 2)
  {
    assert Step(x, 0, lo).c == x.c.(writeByte := HighByte, pendingLoad := true);
  }

  lemma RunOfThree(x: Running, k: index, e0: Timed, e1: Timed, e2: Timed)
    requires Valid(x) && Legal(e0) && Legal(e1) && Legal(e2)
    ensures Run(x, k, [e0, e1, e2]) == Step(Step(Step(x, k, e0), k, e1), k, e2)
  {
    var x1 := Step(x, k, e0);
    RunOfOne(Step(x1, k, e1), k, e2, []);
    RunOfOne(x1, k, e1, [e2]);
    RunOfOne(x, k, e0, [e1, e2]);
    assert [e2] + [] == [e2] && [e1] + [e2] == [e1, e2] && [e0] + [e1, e2] == [e0, e1, e2];
  }

  lemma LatchRun(x: Running, es: seq<Timed>)
    requires x == Running(LOADED, 0, 2) && es == [Timed(0, ReadRegister(0)), Timed(0, Command(0))]
    ensures Run(x, 0, es) == Running(LATCHED, 0, 2)
  {
    var x1 := Step(x, 0, es[0]);
    RunOfOne(x1, 0, es[1], []);
    RunOfOne(x, 0, es[0], [es[1]]);
    assert [es[1]] + [] == [es[1]] && [es[0]] + [es[1]] == es;
    assert x1.c == x.c.(accessByte := HighByte);
  }

  lemma ReadsTear(x: Running)
    requires x == Running(LATCHED, 0, 2)
    ensures ReadAfter(x, 80) == 1 && ReadAfter(Step(x, 0, Timed(80, ReadRegister(0))), 0) == 0xFF
  {
    assert WholePeriods(80, 80) == 1;
    assert Ticks(0x100, 0x100, 1) == 0xFF;
  }

  lemma RunOfOne(x: Running, k: index, e: Timed, rest: seq<Timed>)
    requires Valid(x) && Legal(e) && AllLegal(rest)
    ensures AllLegal([e] + rest) && Run(x, k, [e] + rest) == Run(Step(x, k, e), k, rest)
  {
    assert ([e] + rest)[1..] == rest;
  }

  /** A channel as the timer starts with it. */
  const IDLE: Channel :=
    Channel(0, 0, 0, 0, false, true, false, LowByteHighByte, 0, false, LowByte, LowByte, false)

  /** After a read-back of status and count the order is status, low, high, again tear-free. */
  lemma ReadBackIsWhole(x: Running, k: index, back: Timed,
                        es0: seq<Timed>, dt0: nat, es1: seq<Timed>, dt1: nat, es2: seq<Timed>, dt2: nat)
    requires Valid(x) && back.op.Command? && back.op.b / 64 == 3 && Concerns(back.op.b, k)
    requires SelectsStatus(back.op.b) && SelectsCount(back.op.b)
    requires x.c.accessMode == LowByteHighByte
    requires AllLegal(es0) && AllLeave(es0, k) && AllLegal(es1) && AllLeave(es1, k) && AllLegal(es2) && AllLeave(es2, k)
    ensures var x0 := Run(Step(x, k, back), k, es0);
      var x1 := Run(Step(x0, k, Timed(dt0, ReadRegister(k))), k, es1);
      var x2 := Run(Step(x1, k, Timed(dt1, ReadRegister(k))), k, es2);
      var v := Resolve(x.c, x.now + back.dt, x.prescaler).value;
      && ReadAfter(x0, dt0) == Status(x.c, Unloaded(x0, dt0))
      && ReadAfter(x1, dt1) == LowOf(v, x.c.bcd) && ReadAfter(x2, dt2) == HighOf(v, x.c.bcd)
  {
    var count := Resolve(x.c, x.now + back.dt, x.prescaler).value;
    ReadBackHolds(x, k, back);
    SelectingIsKept(Step(x, k, back), k, es0, x.c, StatusByte);
    var x0 := Run(Step(x, k, back), k, es0);
    HeldRead(x0, k, dt0, x.c, count, StatusByte);
    var x0' := Step(x0, k, Timed(dt0, ReadRegister(k)));
    SelectingIsKept(x0', k, es1, x.c, LowByte);
    var x1 := Run(x0', k, es1);
    HeldRead(x1, k, dt1, x.c, count, LowByte);
    var x1' := Step(x1, k, Timed(dt1, ReadRegister(k)));
    SelectingIsKept(x1', k, es2, x.c, HighByte);
    HeldRead(Run(x1', k, es2), k, dt2, x.c, count, HighByte);
  }

  // ---------------------------------------------------------------- loading

  /** Accesses that do not reconfigure channel `k`. */
  predicate LeavesRunning(e: Timed, k: index) {
    e.op.Command? && Concerns(e.op.b, k) ==> e.op.b / 64 == 3 || AccessModeOf(e.op.b) == LatchCountValue
  }

  /** And do not store to it; it may be read and latched. */
  predicate LeavesLoading(e: Timed, k: index) {
    LeavesRunning(e, k) && (e.op.WriteRegister? ==> e.op.t != k)
  }

  predicate AllLeaveLoading(es: seq<Timed>, k: index) {
    forall i :: 0 <= i < |es| ==> LeavesLoading(es[i], k)
  }

  predicate Paused(c: Channel, m: AccessMode, bcd: bool, value: word, reload: word, next: ByteSelect) {
    && c.waitingForLoad && c.accessMode == m && c.bcd == bcd
    && c.value == value && c.reload == reload && c.writeByte == next
  }

  lemma {:induction false} PausedIsKept(x: Running, k: index, es: seq<Timed>, m: AccessMode, bcd: bool, value: word,
                                        reload: word, next: ByteSelect)
    requires Valid(x) && AllLegal(es) && AllLeaveLoading(es, k) && Paused(x.c, m, bcd, value, reload, next)
    ensures Paused(Run(x, k, es).c, m, bcd, value, reload, next)
    decreases |es|
  {
    if es != [] {
      PausedStep(x, k, es[0], m, bcd, value, reload, next);
      PausedIsKept(Step(x, k, es[0]), k, es[1..], m, bcd, value, reload, next);
    }
  }

  lemma PausedStep(x: Running, k: index, e: Timed, m: AccessMode, bcd: bool, value: word, reload: word,
                   next: ByteSelect)
    requires Valid(x) && Legal(e) && LeavesLoading(e, k) && Paused(x.c, m, bcd, value, reload, next)
    ensures Paused(Step(x, k, e).c, m, bcd, value, reload, next)
  {
  }

  /** After a two-byte configuration the counter stands still until the second byte of the count
      arrives, and then holds and reloads the count: in binary always, in decimal exactly under the
      conditions of BytesStoredExactly. */
  lemma LoadTakesBothBytes(x: Running, k: index, configure: Timed, es1: seq<Timed>, lo: Timed, es2: seq<Timed>,
                           hi: Timed)
    requires Valid(x) && configure.op.Command? && configure.op.b / 64 == k && configure.op.b / 16 % 4 == 3
    requires AllLegal(es1) && AllLeaveLoading(es1, k) && AllLegal(es2) && AllLeaveLoading(es2, k)
    requires lo.op.WriteRegister? && lo.op.t == k && hi.op.WriteRegister? && hi.op.t == k
    ensures var x0 := Step(x, k, configure);
      var x1 := Run(x0, k, es1);
      var x2 := Run(Step(x1, k, lo), k, es2);
      var x3 := Step(x2, k, hi);
      var bcd := configure.op.b % 2 == 1;
      && x1.c.value == x0.c.value && x2.c.value == x0.c.value && x2.c.waitingForLoad
      && x3.c.value == x3.c.reload && !x3.c.waitingForLoad
      && (x3.c.value == Radix(bcd) * hi.op.b + lo.op.b
          <==> !bcd || (lo.op.b < 100 && x0.c.reload - x0.c.reload % 100 + lo.op.b < 0x1_0000))
  {
    var bcd := configure.op.b % 2 == 1;
    var x0 := Step(x, k, configure);
    PausedIsKept(x0, k, es1, LowByteHighByte, bcd, x0.c.value, x0.c.reload, LowByte);
    var x1 := Step(Run(x0, k, es1), k, lo);
    BytesStoredExactly(x0.c.reload, bcd, lo.op.b, hi.op.b);
    PausedIsKept(x1, k, es2, LowByteHighByte, bcd, x0.c.value, StoreLow(x0.c.reload, bcd, lo.op.b), HighByte);
  }

  /** After a one-byte configuration, access 1 or 2, it stands still until that byte arrives. The
      other half of the reload value is what was there. */
  lemma LoadTakesOneByte(x: Running, k: index, configure: Timed, es: seq<Timed>, store: Timed)
    requires Valid(x) && configure.op.Command?
    requires configure.op.b / 64 == k && configure.op.b / 16 % 4 in {1, 2}
    requires AllLegal(es) && AllLeaveLoading(es, k) && store.op.WriteRegister? && store.op.t == k
    ensures var x0 := Step(x, k, configure);
      var x1 := Run(x0, k, es);
      var c := Step(x1, k, store).c;
      var was, b, bcd, low := x0.c.reload, store.op.b, configure.op.b % 2 == 1, configure.op.b / 16 % 4 == 1;
      && x1.c.value == x0.c.value && x1.c.waitingForLoad
      && !c.waitingForLoad && !c.pendingLoad && c.value == c.reload
      && c.reload == (if low then if bcd then (was - was % 100 + b) % 0x1_0000 else was / 0x100 * 0x100 + b
                      else if bcd then 100 * b as int + was % 100 else 0x100 * b as int + was % 0x100)
  {
    var x0 := Step(x, k, configure);
    PausedIsKept(x0, k, es, AccessModeOf(configure.op.b), configure.op.b % 2 == 1, x0.c.value, x0.c.reload,
                 FirstByte(AccessModeOf(configure.op.b)));
  }

  /** Two bytes stored to a running two-byte channel replace its reload value, one after the other;
      the count goes on, and the status says that the new value has yet to be taken. */
  lemma ReloadTakesBothBytes(c: Channel, lo: byte, hi: byte, now1: nat, now2: nat)
    requires !c.waitingForLoad && c.accessMode == LowByteHighByte && c.writeByte == LowByte && !c.bcd
    ensures var c1 := StoreByte(c, lo, now1);
      var c2 := StoreByte(c1, hi, now2);
      && c1 == c.(reload := c.reload / 0x100 * 0x100 + lo, writeByte := HighByte, pendingLoad := true)
      && c2 == c.(reload := 0x100 * hi as int + lo, pendingLoad := true)
  {
    BytesStoredExactly(c.reload, false, lo, hi);
  }

  // ---------------------------------------------------------------- keeping time

  predicate AllLeaveRunning(es: seq<Timed>, k: index) {
    forall i :: 0 <= i < |es| ==> LeavesRunning(es[i], k)
  }

  function PrescalerAfter(prescaler: word, op: Op): word {
    if op.Prescale? then op.p else prescaler
  }

  /** The ticks a run of accesses counts, from the gaps between them alone: every access but a store
      resolves, and the fraction of a tick it finds is dropped. `since` is the time already passed. */
  function Counted(since: nat, prescaler: word, es: seq<Timed>): nat
    requires prescaler > 0 && AllLegal(es)
    decreases |es|
  {
    if es == [] then 0
    else
      var t := since + es[0].dt;
      if es[0].op.WriteRegister? then Counted(t, prescaler, es[1..])
      else WholePeriods(t, Period(prescaler)) + Counted(0, PrescalerAfter(prescaler, es[0].op), es[1..])
  }

  /** The time that is dropped. */
  function Lost(since: nat, prescaler: word, es: seq<Timed>): nat
    requires prescaler > 0 && AllLegal(es)
    decreases |es|
  {
    if es == [] then 0
    else
      var t := since + es[0].dt;
      if es[0].op.WriteRegister? then Lost(t, prescaler, es[1..])
      else LeftOver(t, Period(prescaler)) + Lost(0, PrescalerAfter(prescaler, es[0].op), es[1..])
  }

  /** Before a wrap a running channel has counted exactly those ticks, whatever is done with it
      short of a configuration. */
  lemma {:induction false} CountsExactly(x: Running, k: index, es: seq<Timed>)
    requires Valid(x) && AllLegal(es) && AllLeaveRunning(es, k) && !x.c.waitingForLoad
    requires Counted(x.now - x.c.lastRecord, x.prescaler, es) <= x.c.value
    ensures Run(x, k, es).c.value == x.c.value - Counted(x.now - x.c.lastRecord, x.prescaler, es)
    decreases |es|
  {
    if es != [] {
      RunningStep(x, k, es[0]);
      if !es[0].op.WriteRegister? {
        TicksBeforeWrap(x.c.value, x.c.reload, WholePeriods(x.now + es[0].dt - x.c.lastRecord, Period(x.prescaler)));
      }
      CountsExactly(Step(x, k, es[0]), k, es[1..]);
    }
  }

  /** One access to a running channel. */
  lemma RunningStep(x: Running, k: index, e: Timed)
    requires Valid(x) && Legal(e) && LeavesRunning(e, k) && !x.c.waitingForLoad
    ensures var r := Step(x, k, e);
      && r.now == x.now + e.dt && r.prescaler == PrescalerAfter(x.prescaler, e.op)
      && (LeavesLoading(e, k) ==> r.c.reload == x.c.reload)
      && SameCount(r.c, if e.op.WriteRegister? then x.c else Resolve(x.c, r.now, x.prescaler))
  {
    var c := Resolve(x.c, x.now + e.dt, x.prescaler);
    match e.op
    case Command(b) => if Concerns(b, k) { CommandKeepsCount(c, b); }
    case WriteRegister(_, b) => StoreKeepsCount(x.c, b, x.now + e.dt);
    case ReadRegister(_) => ReadKeepsCount(c);
    case Prescale(_) =>
  }

  /** Two running channels with the same count, brought up to date at the same time. */
  predicate SameCount(c: Channel, d: Channel) {
    !c.waitingForLoad && !d.waitingForLoad && c.value == d.value && c.lastRecord == d.lastRecord
  }

  lemma CommandKeepsCount(c: Channel, b: byte)
    requires !c.waitingForLoad && (b / 64 == 3 || AccessModeOf(b) == LatchCountValue)
    ensures SameCount(OnCommand(c, b), c) && OnCommand(c, b).reload == c.reload
  {
  }

  lemma StoreKeepsCount(c: Channel, b: byte, now: nat)
    requires !c.waitingForLoad
    ensures SameCount(StoreByte(c, b, now), c)
  {
  }

  lemma ReadKeepsCount(c: Channel)
    requires !c.waitingForLoad
    ensures SameCount(NextByte(c), c) && NextByte(c).reload == c.reload
  {
  }

  predicate KeepsPrescaler(es: seq<Timed>, prescaler: word) {
    forall i :: 0 <= i < |es| ==> PrescalerAfter(prescaler, es[i].op) == prescaler
  }

  lemma {:induction false} WholePeriodsAdd(t: nat, u: nat, p: nat)
    requires p > 0
    ensures WholePeriods(t + u, p) == WholePeriods(t, p) + WholePeriods(LeftOver(t, p) + u, p)
    decreases t
  {
    if t >= p {
      WholePeriodsAdd(t - p, u, p);
    }
  }

  /** The time from the last record to the last access that resolves. */
  function Passed(since: nat, es: seq<Timed>): nat
    decreases |es|
  {
    if es == [] then 0
    else
      var t := since + es[0].dt;
      if es[0].op.WriteRegister? then Passed(t, es[1..]) else t + Passed(0, es[1..])
  }

  lemma {:induction false} PassedExactly(x: Running, k: index, es: seq<Timed>)
    requires Valid(x) && AllLegal(es) && AllLeaveRunning(es, k) && !x.c.waitingForLoad
    ensures Run(x, k, es).c.lastRecord == x.c.lastRecord + Passed(x.now - x.c.lastRecord, es)
    decreases |es|
  {
    if es != [] {
      RunningStep(x, k, es[0]);
      PassedExactly(Step(x, k, es[0]), k, es[1..]);
    }
  }

  /** The periods passed are those counted and the whole ones among the time dropped; `u` is time
      dropped earlier. */
  lemma {:induction false} TimeIsCountedOrLost(since: nat, prescaler: word, es: seq<Timed>, u: nat)
    requires prescaler > 0 && AllLegal(es) && KeepsPrescaler(es, prescaler)
    ensures WholePeriods(u + Passed(since, es), Period(prescaler))
         == Counted(since, prescaler, es) + WholePeriods(u + Lost(since, prescaler, es), Period(prescaler))
    decreases |es|
  {
    if es != [] {
      var t, p := since + es[0].dt, Period(prescaler);
      assert PrescalerAfter(prescaler, es[0].op) == prescaler;
      if es[0].op.WriteRegister? {
        TimeIsCountedOrLost(t, prescaler, es[1..], u);
      } else {
        TimeIsCountedOrLost(0, prescaler, es[1..], u + LeftOver(t, p));
        WholePeriodsAdd(t, u + Passed(0, es[1..]), p);
      }
    }
  }

  /** Accesses go unnoticed exactly when they drop less than one tick altogether: before a wrap the
      count is then, and only then, what it would be had nothing resolved since the start. */
  lemma KeepsTimeExactly(x: Running, k: index, es: seq<Timed>)
    requires Valid(x) && AllLegal(es) && AllLeaveRunning(es, k) && !x.c.waitingForLoad
    requires KeepsPrescaler(es, x.prescaler)
    requires WholePeriods(Passed(x.now - x.c.lastRecord, es), Period(x.prescaler)) <= x.c.value
    ensures var r, since := Run(x, k, es), x.now - x.c.lastRecord;
      && r.c.lastRecord == x.c.lastRecord + Passed(since, es)
      && r.c.value == x.c.value - Counted(since, x.prescaler, es)
      && (r.c.value == x.c.value - WholePeriods(Passed(since, es), Period(x.prescaler))
          <==> Lost(since, x.prescaler, es) < Period(x.prescaler))
  {
    TimeIsCountedOrLost(x.now - x.c.lastRecord, x.prescaler, es, 0);
    PassedExactly(x, k, es);
    CountsExactly(x, k, es);
  }

  /** So a running channel that is accessed more often than once a tick never counts. */
  lemma {:induction false} PollingFreezes(x: Running, k: index, es: seq<Timed>)
    requires Valid(x) && AllLegal(es) && AllLeaveRunning(es, k) && KeepsPrescaler(es, x.prescaler)
    requires !x.c.waitingForLoad && x.c.lastRecord == x.now
    requires forall i :: 0 <= i < |es| ==> !es[i].op.WriteRegister? && es[i].dt < Period(x.prescaler)
    ensures Run(x, k, es).c.value == x.c.value
    decreases |es|
  {
    if es != [] {
      RunningStep(x, k, es[0]);
      PollingFreezes(Step(x, k, es[0]), k, es[1..]);
    }
  }

  // ---------------------------------------------------------------- keeping time past wraps

  /** The count after a run of accesses, from the gaps between them. */
  function CountAfter(value: word, reload: word, since: nat, prescaler: word, es: seq<Timed>): word
    requires prescaler > 0 && AllLegal(es)
    decreases |es|
  {
    if es == [] then value
    else
      var t := since + es[0].dt;
      if es[0].op.WriteRegister? then CountAfter(value, reload, t, prescaler, es[1..])
      else CountAfter(FastForward(value, reload, WholePeriods(t, Period(prescaler))), reload,
                      0, PrescalerAfter(prescaler, es[0].op), es[1..])
  }

  /** How many of the accesses find that the counter has wrapped. */
  function Wraps(value: word, reload: word, since: nat, prescaler: word, es: seq<Timed>): nat
    requires prescaler > 0 && AllLegal(es)
    decreases |es|
  {
    if es == [] then 0
    else
      var t := since + es[0].dt;
      if es[0].op.WriteRegister? then Wraps(value, reload, t, prescaler, es[1..])
      else
        var ticks := WholePeriods(t, Period(prescaler));
        (if ticks > value then 1 else 0)
        + Wraps(FastForward(value, reload, ticks), reload, 0, PrescalerAfter(prescaler, es[0].op), es[1..])
  }

  lemma {:induction false} CountAfterExactly(x: Running, k: index, es: seq<Timed>)
    requires Valid(x) && AllLegal(es) && AllLeaveLoading(es, k) && !x.c.waitingForLoad
    ensures Run(x, k, es).c.value == CountAfter(x.c.value, x.c.reload, x.now - x.c.lastRecord, x.prescaler, es)
    decreases |es|
  {
    if es != [] {
      RunningCount(x, k, es[0]);
      CountAfterExactly(Step(x, k, es[0]), k, es[1..]);
    }
  }

  lemma RunningCount(x: Running, k: index, e: Timed)
    requires Valid(x) && Legal(e) && LeavesLoading(e, k) && !x.c.waitingForLoad
    ensures var r := Step(x, k, e);
      && !r.c.waitingForLoad && r.c.reload == x.c.reload
      && r.now == x.now + e.dt && r.prescaler == PrescalerAfter(x.prescaler, e.op)
      && (if e.op.WriteRegister? then r.c.value == x.c.value && r.c.lastRecord == x.c.lastRecord
          else r.c.lastRecord == r.now
               && r.c.value == FastForward(x.c.value, x.c.reload,
                                           WholePeriods(r.now - x.c.lastRecord, Period(x.prescaler))))
  {
    RunningStep(x, k, e);
    FastForwardCounts(x.c.value, x.c.reload, WholePeriods(x.now + e.dt - x.c.lastRecord, Period(x.prescaler)));
  }

  lemma {:induction false} TicksAdd(value: word, reload: word, a: nat, b: nat)
    ensures Ticks(Ticks(value, reload, a), reload, b) == Ticks(value, reload, a + b)
  {
    if b > 0 {
      TicksAdd(value, reload, a, b - 1);
    }
  }

  /** With any number of wraps, each counts for one tick more. */
  lemma {:induction false} CountsWithWraps(value: word, reload: word, since: nat, prescaler: word, es: seq<Timed>)
    requires prescaler > 0 && AllLegal(es)
    ensures CountAfter(value, reload, since, prescaler, es)
         == Ticks(value, reload, Counted(since, prescaler, es) + Wraps(value, reload, since, prescaler, es))
    decreases |es|
  {
    if es != [] {
      var t := since + es[0].dt;
      if es[0].op.WriteRegister? {
        CountsWithWraps(value, reload, t, prescaler, es[1..]);
      } else {
        var ticks, next := WholePeriods(t, Period(prescaler)), PrescalerAfter(prescaler, es[0].op);
        var v := FastForward(value, reload, ticks);
        CountsWithWraps(v, reload, 0, next, es[1..]);
        FastForwardCounts(value, reload, ticks);
        TicksAdd(value, reload, if ticks <= value then ticks else ticks + 1,
                 Counted(0, next, es[1..]) + Wraps(v, reload, 0, next, es[1..]));
      }
    }
  }

  /** The turns of the counter after `n` ticks. */
  lemma {:induction false} TicksTurn(value: word, reload: word, n: nat) returns (q: nat)
    requires value <= reload
    ensures Ticks(value, reload, n) <= reload && n + Ticks(value, reload, n) == value + q * (reload + 1)
  {
    if n == 0 {
      q := 0;
    } else {
      q := TicksTurn(value, reload, n - 1);
      if Ticks(value, reload, n - 1) == 0 {
        assert (q + 1) * (reload + 1) == q * (reload + 1) + reload + 1;
        q := q + 1;
      }
    }
  }

  /** Two tick counts show the same exactly when they differ by whole turns. */
  lemma SameCountExactly(value: word, reload: word, a: nat, b: nat)
    requires value <= reload
    ensures Ticks(value, reload, a) == Ticks(value, reload, b) <==> (a - b) % (reload + 1) == 0
  {
    var d: nat := reload + 1;
    var qa := TicksTurn(value, reload, a);
    var qb := TicksTurn(value, reload, b);
    var diff := Ticks(value, reload, b) - Ticks(value, reload, a);
    assert a - b == (qa - qb) * d + diff;
    WholeTurns(a - b, qa - qb, diff, d);
  }

  lemma WholeTurns(x: int, q: int, r: int, d: nat)
    requires x == q * d + r && -(d as int) < r < d
    ensures x % d == 0 <==> r == 0
  {
    var k, m := x / d - q, x % d;
    assert x == d * (x / d) + m;
    assert d * k == r - m;
    assert k >= 1 ==> d * k >= d;
    assert k <= -1 ==> d * k <= -(d as int);
  }

  /** The wraps found and the whole ticks dropped agree modulo the turn of the counter. */
  predicate WrapsMakeUp(value: word, reload: word, since: nat, prescaler: word, es: seq<Timed>)
    requires prescaler > 0 && AllLegal(es)
  {
    var dropped := WholePeriods(Lost(since, prescaler, es), Period(prescaler));
    (Wraps(value, reload, since, prescaler, es) - dropped) % (reload + 1) == 0
  }

  /** Over every run the count is right, one tick for every period passed, exactly when the ticks
      gained by wraps make up for those dropped. */
  lemma RightOverWrapsExactly(x: Running, k: index, es: seq<Timed>)
    requires Valid(x) && AllLegal(es) && AllLeaveLoading(es, k) && !x.c.waitingForLoad
    requires KeepsPrescaler(es, x.prescaler) && x.c.value <= x.c.reload
    ensures var since := x.now - x.c.lastRecord;
      Run(x, k, es).c.value == Ticks(x.c.value, x.c.reload, WholePeriods(Passed(since, es), Period(x.prescaler)))
      <==> WrapsMakeUp(x.c.value, x.c.reload, since, x.prescaler, es)
  {
    CountAfterExactly(x, k, es);
    RightExactly(x.c.value, x.c.reload, x.now - x.c.lastRecord, x.prescaler, es);
  }

  lemma RightExactly(value: word, reload: word, since: nat, prescaler: word, es: seq<Timed>)
    requires prescaler > 0 && AllLegal(es) && KeepsPrescaler(es, prescaler) && value <= reload
    ensures CountAfter(value, reload, since, prescaler, es)
         == Ticks(value, reload, WholePeriods(Passed(since, es), Period(prescaler)))
      <==> WrapsMakeUp(value, reload, since, prescaler, es)
  {
    var n, wraps := Counted(since, prescaler, es), Wraps(value, reload, since, prescaler, es);
    TimeIsCountedOrLost(since, prescaler, es, 0);
    CountsWithWraps(value, reload, since, prescaler, es);
    SameCountExactly(value, reload, n + wraps, n + WholePeriods(Lost(since, prescaler, es), Period(prescaler)));
  }
}
