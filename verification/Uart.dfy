/**
 The 16450 serial port as a state machine. Guest port accesses, epoll events of the one client and
 the two rate timers are atomic steps, as they are under the port's mutex. This module gives the
 meaning of a step and what holds over every run; SerialPort.dfy is the code that takes the steps.
 */
module Uart {
  import opened Words

  /** What the port is waiting for and reporting. */
  datatype Lines = Lines(
    readable: bool,
    writable: bool,
    readInterruptFlag: bool,
    writeInterruptFlag: bool,
    readInterruptEnabled: bool,
    writeInterruptEnabled: bool,
    armedIn: bool,    // mEventFlags has EPOLLIN
    armedOut: bool,   // mEventFlags has EPOLLOUT
    readTimer: bool,  // the one-shot receive timer is running
    writeTimer: bool)
  {
    predicate ReadPending() {
      readInterruptEnabled && readInterruptFlag
    }

    predicate WritePending() {
      writeInterruptEnabled && writeInterruptFlag
    }

    predicate Pending() {
      ReadPending() || WritePending()
    }

    /** The interrupt identification register as the guest reads it. */
    function Identification(): byte {
      if ReadPending() then 0x04 else if WritePending() then 0x02 else 0x01
    }
  }

  /** The registers that only hold what the guest stored. */
  datatype Registers = Registers(
    receive: byte, divisor: word, interruptControl: byte, lineControl: byte, modemControl: byte, scratchpad: byte)
  {
    predicate Dlab() {
      lineControl >= 0x80
    }
  }

  datatype Uart = Uart(regs: Registers, lines: Lines)

  const IDLE: Lines := Lines(false, false, false, false, false, false, true, true, false, false)
  const INITIAL: Uart := Uart(Registers(0, 0, 0, 0, 0, 0), IDLE)

  // ---------------------------------------------------------------- steps

  predicate LegalDivisor(d: word) {
    1 <= d <= 11519
  }

  /** The one-shot timer after an attempt to start it with one character's delay. */
  predicate SetTimer(divisor: word, running: bool) {
    LegalDivisor(divisor) || (divisor != 0 && running)
  }

  /** That is what timerfd_settime does with the computed delay: zero disarms the timer, a second or
      more is refused and changes nothing. */
  lemma SetTimerExactly(d: word, running: bool)
    ensures var delay := 1600000000 * d / 18432;
      SetTimer(d, running) == if delay == 0 then false else if delay > 999999999 then running else true
  {
    if d >= 11520 {
      assert 1600000000 * d >= 18432 * 1000000000;
    } else if d >= 1 {
      assert 18432 <= 1600000000 * d < 18432 * 1000000000;
    }
  }

  /** What a step does to the lines. */
  datatype Action =
    | Arrive(input: bool, output: bool)  // epoll reports the client ready
    | ReadTimerFires
    | WriteTimerFires
    | TakeData(divisor: word)
    | SendData(divisor: word)
    | Enable(read: bool, write: bool)
    | Identify
    | Nop

  function Act(c: Lines, a: Action): Lines {
    match a
    case Arrive(input, output) =>
      c.(readable := c.readable || input, readInterruptFlag := c.readInterruptFlag || input,
         armedIn := c.armedIn && !input,
         writable := c.writable || output, writeInterruptFlag := c.writeInterruptFlag || output,
         armedOut := c.armedOut && !output)
    case ReadTimerFires => c.(armedIn := true, readTimer := false)
    case WriteTimerFires => c.(armedOut := true, writeTimer := false)
    case TakeData(d) => c.(readable := false, readInterruptFlag := false, readTimer := SetTimer(d, c.readTimer))
    case SendData(d) => c.(writable := false, writeInterruptFlag := false, writeTimer := SetTimer(d, c.writeTimer))
    case Enable(read, write) =>
      c.(readInterruptEnabled := read, writeInterruptEnabled := write,
         readInterruptFlag := if read then c.readable else c.readInterruptFlag,
         writeInterruptFlag := if write then c.writable else c.writeInterruptFlag)
    case Identify => c.(writeInterruptFlag := c.writeInterruptFlag && c.Identification() != 0x02)
    case Nop => c
  }

  /** How often a step raises the interrupt. */
  function Raises(c: Lines, a: Action): nat {
    match a
    case Arrive(input, output) =>
      (if input && c.readInterruptEnabled && !c.WritePending() then 1 else 0)
      + (if output && c.writeInterruptEnabled && !(c.readInterruptEnabled && (c.readInterruptFlag || input))
         then 1 else 0)
    case Enable(_, _) =>
      var c' := Act(c, a);
      if !(c.readInterruptEnabled && c'.readInterruptFlag) && !(c.writeInterruptEnabled && c'.writeInterruptFlag)
         && c'.Pending()
      then 1 else 0
    case _ => 0
  }

  /** An event that reports both directions acts like input first, then output. */
  lemma ArriveSplits(c: Lines, input: bool, output: bool)
    ensures Act(c, Arrive(false, false)) == c && Raises(c, Arrive(false, false)) == 0
    ensures Act(Act(c, Arrive(input, false)), Arrive(false, output)) == Act(c, Arrive(input, output))
    ensures Raises(c, Arrive(input, false)) + Raises(Act(c, Arrive(input, false)), Arrive(false, output))
         == Raises(c, Arrive(input, output))
  {
  }

  /** Bytes the client's socket can give to a data read; at most one is taken. */
  datatype Incoming = Nothing | Arrived(b: byte)

  datatype Event =
    | ClientReady(input: bool, output: bool)
    | ReadTimerFired
    | WriteTimerFired
    | PortRead(address: word, incoming: Incoming)
    | PortWrite(address: word, data: byte)

  function ActionOf(r: Registers, e: Event): Action {
    match e
    case ClientReady(input, output) => Arrive(input, output)
    case ReadTimerFired => ReadTimerFires
    case WriteTimerFired => WriteTimerFires
    case PortRead(address, _) =>
      if address % 8 == 0 && !r.Dlab() then TakeData(r.divisor)
      else if address % 8 == 2 then Identify
      else Nop
    case PortWrite(address, data) =>
      if address % 8 == 0 && !r.Dlab() then SendData(r.divisor)
      else if address % 8 == 1 && !r.Dlab() then Enable(data % 2 == 1, data / 2 % 2 == 1)
      else Nop
  }

  function Store(r: Registers, e: Event): Registers {
    match e
    case PortRead(address, Arrived(b)) => if address % 8 == 0 && !r.Dlab() then r.(receive := b) else r
    case PortWrite(address, data) =>
      (match address % 8
       case 0 => if r.Dlab() then r.(divisor := r.divisor / 0x100 * 0x100 + data) else r
       case 1 =>
         if r.Dlab() then r.(divisor := data as int * 0x100 + r.divisor % 0x100)
         else r.(interruptControl := data % 0x10)
       case 3 => r.(lineControl := data)
       case 4 => r.(modemControl := data % 0x20)
       case 7 => r.(scratchpad := data)
       case _ => r)
    case _ => r
  }

  function Step(u: Uart, e: Event): Uart {
    Uart(Store(u.regs, e), Act(u.lines, ActionOf(u.regs, e)))
  }

  function Irqs(u: Uart, e: Event): nat {
    Raises(u.lines, ActionOf(u.regs, e))
  }

  /** The byte a port read returns. */
  function Value(u: Uart, address: word, incoming: Incoming): byte {
    match address % 8
    case 0 => if u.regs.Dlab() then u.regs.divisor % 0x100 else Store(u.regs, PortRead(address, incoming)).receive
    case 1 => if u.regs.Dlab() then u.regs.divisor / 0x100 else u.regs.interruptControl
    case 2 => u.lines.Identification()
    case 3 => u.regs.lineControl
    case 4 => u.regs.modemControl
    case 5 => (if u.lines.writable then 0x60 else 0) + (if u.lines.readable then 0x01 else 0)
    case 6 => 0
    case _ => u.regs.scratchpad
  }

  // ---------------------------------------------------------------- accesses, port by port

  /** A byte written to the open data register takes the port's readiness to send and its transmit
      cause, and starts the transmit timer; nothing is raised and the receive side is kept. */
  lemma DataWriteExactly(u: Uart, address: word, data: byte)
    requires address % 8 == 0 && u.regs.lineControl < 0x80 && 1 <= u.regs.divisor <= 11519
    ensures var e := PortWrite(address, data);
      Step(u, e) == u.(lines := u.lines.(writable := false, writeInterruptFlag := false, writeTimer := true))
      && Irqs(u, e) == 0
  {
  }

  /** A read of the open data register gives the byte that has arrived, or else the one received
      last; it takes the receive condition and its cause and starts the receive timer. */
  lemma DataReadExactly(u: Uart, address: word, incoming: Incoming)
    requires address % 8 == 0 && u.regs.lineControl < 0x80 && 1 <= u.regs.divisor <= 11519
    ensures var e, byteRead := PortRead(address, incoming), if incoming.Arrived? then incoming.b else u.regs.receive;
      && Value(u, address, incoming) == byteRead && Irqs(u, e) == 0
      && Step(u, e) == Uart(u.regs.(receive := byteRead),
                            u.lines.(readable := false, readInterruptFlag := false, readTimer := true))
  {
  }

  /** Bits 0 and 1 of the interrupt-enable register; an interrupt that is enabled gets its condition
      for a cause. */
  lemma EnableWriteExactly(u: Uart, address: word, data: byte)
    requires address % 8 == 1 && u.regs.lineControl < 0x80
    ensures var c, c' := u.lines, Step(u, PortWrite(address, data)).lines;
      && (c'.readInterruptEnabled <==> data % 2 == 1) && (c'.writeInterruptEnabled <==> data / 2 % 2 == 1)
      && (c'.readInterruptFlag <==> if data % 2 == 1 then c.readable else c.readInterruptFlag)
      && (c'.writeInterruptFlag <==> if data / 2 % 2 == 1 then c.writable else c.writeInterruptFlag)
      && (c'.readable, c'.writable, c'.armedIn, c'.armedOut, c'.readTimer, c'.writeTimer)
         == (c.readable, c.writable, c.armedIn, c.armedOut, c.readTimer, c.writeTimer)
  {
  }

  /** The identification: receive before transmit before none, and only reporting the transmit cause
      takes it. */
  lemma IdentificationExactly(u: Uart, address: word, incoming: Incoming)
    requires address % 8 == 2
    ensures var c, v := u.lines, Value(u, address, incoming);
      var receive, transmit := c.readInterruptEnabled && c.readInterruptFlag,
                               c.writeInterruptEnabled && c.writeInterruptFlag;
      && v == (if receive then 4 else if transmit then 2 else 1)
      && Step(u, PortRead(address, incoming))
         == if transmit && !receive then u.(lines := c.(writeInterruptFlag := false)) else u
  {
  }

  /** The line status: bit 0 is that a byte is waiting, bits 5 and 6 that one can be sent, the others
      are clear. The modem status is zero. */
  lemma LineStatusExactly(u: Uart, address: word, incoming: Incoming)
    ensures var v := Value(u, address, incoming);
      && (address % 8 == 5 ==>
            && (v % 2 == 1 <==> u.lines.readable)
            && (v / 0x20 % 2 == 1 <==> u.lines.writable) && (v / 0x40 % 2 == 1 <==> u.lines.writable)
            && v / 2 % 0x10 == 0 && v < 0x80)
      && (address % 8 == 6 ==> v == 0)
  {
  }

  /** What a port write stores a read of the same port gives back, as far as the register keeps it. */
  lemma WriteThenRead(u: Uart, address: word, data: byte, incoming: Incoming)
    ensures var v := Value(Step(u, PortWrite(address, data)), address, incoming);
      match address % 8
      case 0 => u.regs.lineControl >= 0x80 ==> v == data
      case 1 => v == if u.regs.lineControl >= 0x80 then data else data % 0x10
      case 3 => v == data
      case 4 => v == data % 0x20
      case 7 => v == data
      case _ => true
  {
    if u.regs.Dlab() {
      DivisorBytes(u.regs.divisor / 0x100, data);
      DivisorBytes(data, u.regs.divisor % 0x100);
    }
  }

  /** No other access touches the lines or raises anything, and no other read changes the port. */
  lemma OtherAccessesKeep(u: Uart, address: word, data: byte, incoming: Incoming)
    ensures address % 8 >= 2 || u.regs.lineControl >= 0x80 ==>
      Step(u, PortWrite(address, data)).lines == u.lines && Irqs(u, PortWrite(address, data)) == 0
    ensures address % 8 in {1, 3, 4, 5, 6, 7} || (address % 8 == 0 && u.regs.lineControl >= 0x80) ==>
      Step(u, PortRead(address, incoming)) == u && Irqs(u, PortRead(address, incoming)) == 0
    ensures Irqs(u, PortRead(address, incoming)) == 0
  {
  }

  /** An event of the client and the ends of the timers. */
  lemma EnvironmentExactly(u: Uart, output: bool)
    ensures var c := u.lines;
      && Step(u, ClientReady(true, output)).lines.readable && Step(u, ClientReady(true, output)).lines.readInterruptFlag
      && !Step(u, ClientReady(true, output)).lines.armedIn
      && Step(u, ClientReady(false, true))
         == u.(lines := c.(writable := true, writeInterruptFlag := true, armedOut := false))
      && Step(u, ClientReady(true, false))
         == u.(lines := c.(readable := true, readInterruptFlag := true, armedIn := false))
      && Step(u, ReadTimerFired) == u.(lines := c.(armedIn := true, readTimer := false))
      && Step(u, WriteTimerFired) == u.(lines := c.(armedOut := true, writeTimer := false))
  {
  }

  /** What the environment can do: epoll reports only what is armed, a timer fires only if running. */
  predicate Possible(c: Lines, a: Action) {
    match a
    case Arrive(input, output) => (input ==> c.armedIn) && (output ==> c.armedOut)
    case ReadTimerFires => c.readTimer
    case WriteTimerFires => c.writeTimer
    case _ => true
  }

  // ---------------------------------------------------------------- no lost interrupt

  /** The receive flag is the receive condition, the transmit flag implies its condition, and the
      record `raised` is about causes that are pending. */
  predicate Consistent(c: Lines, raised: bool) {
    && (c.readInterruptFlag <==> c.readable)
    && (c.writeInterruptFlag ==> c.writable)
    && (raised ==> c.Pending())
  }

  predicate NothingLost(c: Lines, raised: bool) {
    c.Pending() ==> raised
  }

  /** Whether the interrupt was raised since it last had no cause. */
  predicate RaisedAfter(c: Lines, raised: bool, a: Action) {
    Act(c, a).Pending() && (raised || Raises(c, a) > 0)
  }

  /** The one step that loses an interrupt: an interrupt-enable write keeps the transmit interrupt
      on, while the port is writable and an identification read had already taken the cause. */
  predicate Loses(c: Lines, a: Action) {
    && a.Enable? && a.write
    && c.writeInterruptEnabled && c.writable && !c.writeInterruptFlag && !c.ReadPending()
  }

  lemma ConsistentStep(c: Lines, raised: bool, a: Action)
    requires Consistent(c, raised)
    ensures Consistent(Act(c, a), RaisedAfter(c, raised, a))
  {
  }

  /** From a state with nothing lost, a step loses an interrupt exactly when it is that step. */
  lemma LosesExactly(c: Lines, raised: bool, a: Action)
    requires Consistent(c, raised) && NothingLost(c, raised)
    ensures NothingLost(Act(c, a), RaisedAfter(c, raised, a)) <==> !Loses(c, a)
  {
  }

  /** A state with that record. */
  datatype Watched = Watched(u: Uart, raised: bool) {
    function Next(e: Event): Action {
      ActionOf(u.regs, e)
    }
  }

  const START: Watched := Watched(INITIAL, false)

  function Watch(w: Watched, e: Event): Watched {
    Watched(Step(w.u, e), RaisedAfter(w.u.lines, w.raised, w.Next(e)))
  }

  function Run(w: Watched, events: seq<Event>): Watched {
    if events == [] then w else Watch(Run(w, events[..|events| - 1]), events[|events| - 1])
  }

  /** `p` holds of the lines before every step of a run, and of what the step does to them. */
  ghost predicate EachStep(events: seq<Event>, p: (Lines, Action) -> bool) {
    forall i :: 0 <= i < |events| ==>
      var w := Run(START, events[..i]);
      p(w.u.lines, w.Next(events[i]))
  }

  lemma EachStepPrefix(events: seq<Event>, p: (Lines, Action) -> bool)
    requires events != [] && EachStep(events, p)
    ensures var last := |events| - 1;
      var w := Run(START, events[..last]);
      EachStep(events[..last], p) && p(w.u.lines, w.Next(events[last]))
  {
    var init := events[..|events| - 1];
    assert forall i :: 0 <= i < |init| ==> init[..i] == events[..i] && init[i] == events[i];
  }

  /** The interrupt was raised in a run, and ever since something has been pending. */
  ghost predicate RaisedSince(events: seq<Event>) {
    exists i :: 0 <= i < |events| && RaisedAt(events, i)
  }

  ghost predicate RaisedAt(events: seq<Event>, i: nat)
    requires i < |events|
  {
    Irqs(Run(START, events[..i]).u, events[i]) > 0
    && forall j :: i < j <= |events| ==> PendingAt(events, j)
  }

  predicate PendingAt(events: seq<Event>, j: nat)
    requires j <= |events|
  {
    var c := Run(START, events[..j]).u.lines;
    (c.readInterruptEnabled && c.readInterruptFlag) || (c.writeInterruptEnabled && c.writeInterruptFlag)
  }

  lemma {:induction false} RaisedMeansSince(events: seq<Event>)
    requires Run(START, events).raised
    ensures RaisedSince(events)
  {
    var last := |events| - 1;
    LastStepRaises(events);
    if Irqs(Run(START, events[..last]).u, events[last]) > 0 {
      assert RaisedAt(events, last);
    } else {
      RaisedMeansSince(events[..last]);
      var i :| 0 <= i < last && RaisedAt(events[..last], i);
      RaisedExtends(events, i);
    }
  }

  lemma LastStepRaises(events: seq<Event>)
    requires Run(START, events).raised
    ensures events != [] && PendingAt(events, |events|)
    ensures var last := |events| - 1;
      Irqs(Run(START, events[..last]).u, events[last]) > 0 || Run(START, events[..last]).raised
  {
    assert events[..|events|] == events;
  }

  lemma RaisedExtends(events: seq<Event>, i: nat)
    requires i < |events| - 1 && RaisedAt(events[..|events| - 1], i) && PendingAt(events, |events|)
    ensures RaisedAt(events, i)
  {
    var init := events[..|events| - 1];
    assert init[..i] == events[..i];
    forall j | i < j <= |events| ensures PendingAt(events, j) {
      if j < |events| {
        assert init[..j] == events[..j] && PendingAt(init, j);
      }
    }
  }

  /** No interrupt is lost over any run without that step: when a cause is pending, the interrupt has
      been raised since there was last none. */
  lemma {:induction false} NoInterruptLost(events: seq<Event>)
    requires forall i :: 0 <= i < |events| ==>
      var u, e := Run(START, events[..i]).u, events[i];
      !(e.PortWrite? && e.address % 8 == 1 && u.regs.lineControl < 0x80 && e.data / 2 % 2 == 1
        && u.lines.writeInterruptEnabled && u.lines.writable && !u.lines.writeInterruptFlag
        && !(u.lines.readInterruptEnabled && u.lines.readInterruptFlag))
    ensures var c := Run(START, events).u.lines;
      (c.readInterruptEnabled && c.readInterruptFlag) || (c.writeInterruptEnabled && c.writeInterruptFlag) ==>
      RaisedSince(events)
  {
    EachStepIs(events, (c, a) => !Loses(c, a));
    NothingLostOver(events);
    if Run(START, events).raised {
      RaisedMeansSince(events);
    }
  }

  lemma EachStepIs(events: seq<Event>, p: (Lines, Action) -> bool)
    requires forall i :: 0 <= i < |events| ==>
      p(Run(START, events[..i]).u.lines, ActionOf(Run(START, events[..i]).u.regs, events[i]))
    ensures EachStep(events, p)
  {
  }

  lemma {:induction false} NothingLostOver(events: seq<Event>)
    requires EachStep(events, (c, a) => !Loses(c, a))
    ensures var w := Run(START, events);
      Consistent(w.u.lines, w.raised) && NothingLost(w.u.lines, w.raised)
  {
    if events != [] {
      var last := |events| - 1;
      EachStepPrefix(events, (c, a) => !Loses(c, a));
      NothingLostOver(events[..last]);
      var w := Run(START, events[..last]);
      ConsistentStep(w.u.lines, w.raised, w.Next(events[last]));
      LosesExactly(w.u.lines, w.raised, w.Next(events[last]));
    }
  }

  /** A run that does lose one: enable the transmit interrupt, let the port become writable, take
      the cause by an identification read, and write the same enable byte again. */
  lemma LossHappens()
    ensures var w := Watch(Watch(Watch(Watch(START,
      PortWrite(1, 2)), ClientReady(false, true)), PortRead(2, Nothing)), PortWrite(1, 2));
      w.u.lines.writeInterruptEnabled && w.u.lines.writeInterruptFlag && !w.raised
  {
    var r := Registers(0, 0, 2, 0, 0, 0);
    var c1 := IDLE.(writeInterruptEnabled := true);
    var c2 := c1.(writable := true, writeInterruptFlag := true, armedOut := false);
    assert Watch(START, PortWrite(1, 2)) == Watched(Uart(r, c1), false);
    assert Watch(Watched(Uart(r, c1), false), ClientReady(false, true)) == Watched(Uart(r, c2), true);
    assert Watch(Watched(Uart(r, c2), true), PortRead(2, Nothing))
        == Watched(Uart(r, c2.(writeInterruptFlag := false)), false);
    assert Watch(Watched(Uart(r, c2.(writeInterruptFlag := false)), false), PortWrite(1, 2))
        == Watched(Uart(r, c2), false);
  }

  // ---------------------------------------------------------------- flow control

  function Tokens(a: bool, b: bool, c: bool): nat {
    (if a then 1 else 0) + (if b then 1 else 0) + (if c then 1 else 0)
  }

  /** Exactly one of: listening for input, holding a byte, waiting out the receive timer. */
  predicate ReceiveConserved(c: Lines) {
    Tokens(c.armedIn, c.readable, c.readTimer) == 1
  }

  /** Exactly one of: listening for output, able to send, waiting out the transmit timer. */
  predicate TransmitConserved(c: Lines) {
    Tokens(c.armedOut, c.writable, c.writeTimer) == 1
  }

  /** When a data access keeps its direction's token, by where the token is. */
  predicate TokenKept(divisor: word, armed: bool, ready: bool, waiting: bool) {
    && (ready ==> LegalDivisor(divisor))
    && (armed ==> !LegalDivisor(divisor))
    && (waiting ==> divisor != 0)
  }

  lemma ReceiveConservedExactly(c: Lines, a: Action)
    requires ReceiveConserved(c) && Possible(c, a)
    ensures ReceiveConserved(Act(c, a))
      <==> (a.TakeData? ==> TokenKept(a.divisor, c.armedIn, c.readable, c.readTimer))
  {
  }

  lemma TransmitConservedExactly(c: Lines, a: Action)
    requires TransmitConserved(c) && Possible(c, a)
    ensures TransmitConserved(Act(c, a))
      <==> (a.SendData? ==> TokenKept(a.divisor, c.armedOut, c.writable, c.writeTimer))
  {
  }

  /** A guest that looks at the line status first: it reads data only when there is some, writes
      only when it may, and with a divisor the timers accept. */
  predicate Disciplined(c: Lines, a: Action) {
    && Possible(c, a)
    && (a.TakeData? ==> c.readable && LegalDivisor(a.divisor))
    && (a.SendData? ==> c.writable && LegalDivisor(a.divisor))
  }

  predicate FirstCause(c: Lines, a: Action) {
    !c.Pending() && Act(c, a).Pending() && !Loses(c, a)
  }

  /** With such a guest the interrupt is raised exactly when a first cause appears, once, except
      for the lossy step. */
  lemma RaisedExactlyOnFirstCauses(c: Lines, raised: bool, a: Action)
    requires Consistent(c, raised) && ReceiveConserved(c) && TransmitConserved(c) && Disciplined(c, a)
    ensures Raises(c, a) == if FirstCause(c, a) then 1 else 0
  {
  }

  /** The same over ports: it reads the data register only with bit 0 of the line status set, writes
      it only with bit 5 set; and the environment does only what it can. */
  predicate Careful(u: Uart, e: Event) {
    var status, open := Value(u, 5, Nothing), u.regs.lineControl < 0x80;
    match e
    case ClientReady(input, output) => (input ==> u.lines.armedIn) && (output ==> u.lines.armedOut)
    case ReadTimerFired => u.lines.readTimer
    case WriteTimerFired => u.lines.writeTimer
    case PortRead(address, _) =>
      address % 8 == 0 && open ==> status % 2 == 1 && 1 <= u.regs.divisor <= 11519
    case PortWrite(address, _) =>
      address % 8 == 0 && open ==> status / 0x20 % 2 == 1 && 1 <= u.regs.divisor <= 11519
  }

  ghost predicate CarefulRun(events: seq<Event>) {
    forall i :: 0 <= i < |events| ==> Careful(Run(START, events[..i]).u, events[i])
  }

  lemma CarefulExactly(u: Uart, e: Event)
    ensures Careful(u, e) <==> Disciplined(u.lines, ActionOf(u.regs, e))
  {
    LineStatusExactly(u, 5, Nothing);
  }

  lemma CarefulIsDisciplined(events: seq<Event>)
    requires CarefulRun(events)
    ensures EachStep(events, Disciplined)
  {
    forall i | 0 <= i < |events|
      ensures Disciplined(Run(START, events[..i]).u.lines, ActionOf(Run(START, events[..i]).u.regs, events[i]))
    {
      CarefulExactly(Run(START, events[..i]).u, events[i]);
    }
    EachStepIs(events, Disciplined);
  }

  /** Flow control is conserved over every run of a guest that looks at the line status first. */
  lemma FlowConserved(events: seq<Event>)
    requires CarefulRun(events)
    ensures var c := Run(START, events).u.lines;
      && Tokens(c.armedIn, c.readable, c.readTimer) == 1 && Tokens(c.armedOut, c.writable, c.writeTimer) == 1
      && (c.readInterruptFlag <==> c.readable) && (c.writeInterruptFlag ==> c.writable)
  {
    CarefulIsDisciplined(events);
    DisciplineConserves(events);
  }

  lemma {:induction false} DisciplineConserves(events: seq<Event>)
    requires EachStep(events, Disciplined)
    ensures var w := Run(START, events);
      Consistent(w.u.lines, w.raised) && ReceiveConserved(w.u.lines) && TransmitConserved(w.u.lines)
  {
    if events != [] {
      var last := |events| - 1;
      EachStepPrefix(events, Disciplined);
      DisciplineConserves(events[..last]);
      var w := Run(START, events[..last]);
      var a := w.Next(events[last]);
      ConsistentStep(w.u.lines, w.raised, a);
      ReceiveConservedExactly(w.u.lines, a);
      TransmitConservedExactly(w.u.lines, a);
    }
  }

  /** Interrupts raised over a run. */
  function TotalIrqs(events: seq<Event>): nat {
    if events == [] then 0
    else
      var last := |events| - 1;
      TotalIrqs(events[..last]) + Irqs(Run(START, events[..last]).u, events[last])
  }

  /** First causes that appear over a run. */
  function TotalFirstCauses(events: seq<Event>): nat {
    if events == [] then 0
    else
      var last := |events| - 1;
      var w := Run(START, events[..last]);
      TotalFirstCauses(events[..last]) + if FirstCause(w.u.lines, w.Next(events[last])) then 1 else 0
  }

  /** Over every run of such a guest there are as many interrupts as first causes. */
  lemma InterruptsAreFirstCauses(events: seq<Event>)
    requires CarefulRun(events)
    ensures TotalIrqs(events) == TotalFirstCauses(events)
  {
    CarefulIsDisciplined(events);
    DisciplinedTotals(events);
  }

  lemma {:induction false} DisciplinedTotals(events: seq<Event>)
    requires EachStep(events, Disciplined)
    ensures TotalIrqs(events) == TotalFirstCauses(events)
  {
    if events != [] {
      var last := |events| - 1;
      EachStepPrefix(events, Disciplined);
      DisciplinedTotals(events[..last]);
      DisciplineConserves(events[..last]);
      var w := Run(START, events[..last]);
      RaisedExactlyOnFirstCauses(w.u.lines, w.raised, w.Next(events[last]));
    }
  }

  // ---------------------------------------------------------------- interrupt service

  function Causes(c: Lines): nat {
    (if c.ReadPending() then 1 else 0) + (if c.WritePending() then 1 else 0)
  }

  datatype Arrival = Arrival(input: bool, output: bool)

  /** What the environment does between two accesses of the service routine. */
  function Deliver(c: Lines, gap: seq<Arrival>): Lines
    decreases |gap|
  {
    if gap == [] then c else Deliver(Act(c, Arrive(gap[0].input, gap[0].output)), gap[1..])
  }

  function Arrivals(gaps: seq<seq<Arrival>>): nat {
    if gaps == [] then 0 else |gaps[0]| + Arrivals(gaps[1..])
  }

  function Gap(gaps: seq<seq<Arrival>>): seq<Arrival> {
    if gaps == [] then [] else gaps[0]
  }

  function Rest(gaps: seq<seq<Arrival>>): (r: seq<seq<Arrival>>)
    ensures Arrivals(gaps) == |Gap(gaps)| + Arrivals(r)
  {
    if gaps == [] then [] else gaps[1..]
  }

  lemma {:induction false} DeliverBound(c: Lines, gap: seq<Arrival>)
    ensures Causes(Deliver(c, gap)) <= Causes(c) + 2 * |gap|
    decreases |gap|
  {
    if gap != [] {
      DeliverBound(Act(c, Arrive(gap[0].input, gap[0].output)), gap[1..]);
    }
  }

  /** One round of a driver's interrupt service with the divisor latch closed: read the
      identification and, on 04, the data. gaps[k] arrives after the k-th access. */
  function Round(c: Lines, divisor: word, gaps: seq<seq<Arrival>>): (r: (Lines, seq<seq<Arrival>>))
    ensures c.Pending() ==> Causes(r.0) + 2 * Arrivals(r.1) < Causes(c) + 2 * Arrivals(gaps)
  {
    DeliverBound(Act(c, Identify), Gap(gaps));
    var c1, gaps1 := Deliver(Act(c, Identify), Gap(gaps)), Rest(gaps);
    if c.Identification() != 0x04 then (c1, gaps1)
    else
      DeliverBound(Act(c1, TakeData(divisor)), Gap(gaps1));
      (Deliver(Act(c1, TakeData(divisor)), Gap(gaps1)), Rest(gaps1))
  }

  /** The rounds until an identification read gives 01: the state each one starts in. */
  function Service(c: Lines, divisor: word, gaps: seq<seq<Arrival>>): (r: seq<Lines>)
    ensures 1 <= |r| <= Causes(c) + 2 * Arrivals(gaps) + 1
    decreases Causes(c) + 2 * Arrivals(gaps)
  {
    if c.Identification() == 0x01 then [c]
    else
      var next := Round(c, divisor, gaps);
      [c] + Service(next.0, divisor, next.1)
  }

  lemma {:induction false} DeliverKeepsTransmit(c: Lines, gap: seq<Arrival>)
    requires c.WritePending()
    ensures Deliver(c, gap).WritePending()
    decreases |gap|
  {
    if gap != [] {
      DeliverKeepsTransmit(Act(c, Arrive(gap[0].input, gap[0].output)), gap[1..]);
    }
  }

  lemma RoundKeepsTransmit(c: Lines, divisor: word, gaps: seq<seq<Arrival>>)
    requires c.ReadPending() && c.WritePending()
    ensures Round(c, divisor, gaps).0.WritePending()
  {
    var c1 := Deliver(Act(c, Identify), Gap(gaps));
    DeliverKeepsTransmit(Act(c, Identify), Gap(gaps));
    DeliverKeepsTransmit(Act(c1, TakeData(divisor)), Gap(Rest(gaps)));
  }

  /** Interrupt service always ends, with nothing pending, after a number of identification reads
      linear in the events that arrive; receive is reported before transmit, and a transmit cause
      that has to wait for it is still there in the next round. */
  lemma {:induction false} ServiceDrains(c: Lines, divisor: word, gaps: seq<seq<Arrival>>, k: nat)
    requires k < |Service(c, divisor, gaps)|
    ensures |Service(c, divisor, gaps)| <= 2 * Arrivals(gaps) + 3
    ensures var s := Service(c, divisor, gaps);
      (s[k].Pending() <==> k < |s| - 1)
      && (s[k].Identification() == 0x02 ==> !s[k].ReadPending())
      && (s[k].ReadPending() && s[k].WritePending() ==> k + 1 < |s| && s[k + 1].WritePending())
    decreases k
  {
    if k == 0 {
      ServiceStarts(c, divisor, gaps);
    } else {
      var next := Round(c, divisor, gaps);
      ServiceDrains(next.0, divisor, next.1, k - 1);
      ServiceGoesOn(c, divisor, gaps, k);
    }
  }

  lemma ServiceGoesOn(c: Lines, divisor: word, gaps: seq<seq<Arrival>>, k: nat)
    requires 0 < k < |Service(c, divisor, gaps)|
    ensures var s, next := Service(c, divisor, gaps), Round(c, divisor, gaps);
      var rest := Service(next.0, divisor, next.1);
      |s| == 1 + |rest| && s[k] == rest[k - 1] && (k + 1 < |s| ==> s[k + 1] == rest[k])
  {
  }

  lemma ServiceStarts(c: Lines, divisor: word, gaps: seq<seq<Arrival>>)
    ensures var s, next := Service(c, divisor, gaps), Round(c, divisor, gaps);
      && s[0] == c && (c.Pending() <==> |s| > 1)
      && (|s| > 1 ==> s == [c] + Service(next.0, divisor, next.1) && s[1] == next.0)
    ensures c.ReadPending() && c.WritePending() ==> Service(c, divisor, gaps)[1].WritePending()
  {
    if c.ReadPending() && c.WritePending() {
      RoundKeepsTransmit(c, divisor, gaps);
    }
  }

  // ---------------------------------------------------------------- the register file

  datatype RegisterName = DivisorLow | DivisorHigh | InterruptEnable | LineControl | ModemControl | Scratchpad

  function Register(r: Registers, n: RegisterName): byte {
    match n
    case DivisorLow => r.divisor % 0x100
    case DivisorHigh => r.divisor / 0x100
    case InterruptEnable => r.interruptControl
    case LineControl => r.lineControl
    case ModemControl => r.modemControl
    case Scratchpad => r.scratchpad
  }

  /** The register behind a port; the divisor latch bit swaps the first two. */
  predicate Selects(dlab: bool, address: word, n: RegisterName) {
    match address % 8
    case 0 => dlab && n == DivisorLow
    case 1 => n == if dlab then DivisorHigh else InterruptEnable
    case 3 => n == LineControl
    case 4 => n == ModemControl
    case 7 => n == Scratchpad
    case _ => false
  }

  /** The bits a register keeps. */
  function Kept(n: RegisterName, data: byte): byte {
    match n
    case InterruptEnable => data % 0x10
    case ModemControl => data % 0x20
    case _ => data
  }

  /** A write changes exactly the register it selects. */
  lemma StoreExactly(r: Registers, address: word, data: byte, n: RegisterName)
    ensures Register(Store(r, PortWrite(address, data)), n)
         == if Selects(r.Dlab(), address, n) then Kept(n, data) else Register(r, n)
  {
    if r.Dlab() && address % 8 == 0 {
      DivisorBytes(r.divisor / 0x100, data);
    } else if r.Dlab() && address % 8 == 1 {
      DivisorBytes(data, r.divisor % 0x100);
    }
  }

  lemma DivisorBytes(hi: byte, lo: byte)
    ensures (hi * 0x100 + lo) / 0x100 == hi && (hi * 0x100 + lo) % 0x100 == lo
  {
  }

  /** The bits kept of the last write of a run that selected the register, or zero. */
  function LastStored(events: seq<Event>, n: RegisterName): byte {
    if events == [] then 0
    else
      var last := |events| - 1;
      var e := events[last];
      if e.PortWrite? && Selects(Run(START, events[..last]).u.regs.Dlab(), e.address, n) then Kept(n, e.data)
      else LastStored(events[..last], n)
  }

  /** After any run a port read gives back the last value stored in the register it selects. */
  lemma {:induction false} ReadsBackLastStored(events: seq<Event>, address: word, incoming: Incoming, n: RegisterName)
    ensures var u := Run(START, events).u;
      Register(u.regs, n) == LastStored(events, n)
      && (Selects(u.regs.Dlab(), address, n) ==> Value(u, address, incoming) == LastStored(events, n))
  {
    if events != [] {
      var last := |events| - 1;
      var e, r := events[last], Run(START, events[..last]).u.regs;
      ReadsBackLastStored(events[..last], address, incoming, n);
      if e.PortWrite? {
        StoreExactly(r, e.address, e.data, n);
      } else {
        assert Register(Store(r, e), n) == Register(r, n);
      }
      assert Run(START, events).u.regs == Store(r, e);
    }
  }

  /** The byte received last over a run: the last that arrived at a read of the open data register. */
  function LastReceived(events: seq<Event>): byte {
    if events == [] then 0
    else
      var last := |events| - 1;
      var e := events[last];
      if e.PortRead? && e.incoming.Arrived? && e.address % 8 == 0
         && Run(START, events[..last]).u.regs.lineControl < 0x80
      then e.incoming.b
      else LastReceived(events[..last])
  }

  /** After any run a read of the open data register with nothing waiting repeats that byte. */
  lemma {:induction false} DataReadRepeats(events: seq<Event>, address: word)
    ensures var u := Run(START, events).u;
      u.regs.receive == LastReceived(events)
      && (address % 8 == 0 && u.regs.lineControl < 0x80 ==> Value(u, address, Nothing) == LastReceived(events))
  {
    if events != [] {
      var last := |events| - 1;
      DataReadRepeats(events[..last], address);
      assert Run(START, events).u.regs == Store(Run(START, events[..last]).u.regs, events[last]);
    }
  }

  /** After any run the two enables are bits 0 and 1 of what the interrupt-enable register reads. */
  lemma {:induction false} EnablesAreStored(events: seq<Event>)
    ensures var u := Run(START, events).u;
      && (u.lines.readInterruptEnabled <==> u.regs.interruptControl % 2 == 1)
      && (u.lines.writeInterruptEnabled <==> u.regs.interruptControl / 2 % 2 == 1)
  {
    if events != [] {
      var last := |events| - 1;
      EnablesAreStored(events[..last]);
      EnablesStep(Run(START, events[..last]).u, events[last]);
    }
  }

  lemma EnablesStep(u: Uart, e: Event)
    requires u.lines.readInterruptEnabled <==> u.regs.interruptControl % 2 == 1
    requires u.lines.writeInterruptEnabled <==> u.regs.interruptControl / 2 % 2 == 1
    ensures var u' := Step(u, e);
      && (u'.lines.readInterruptEnabled <==> u'.regs.interruptControl % 2 == 1)
      && (u'.lines.writeInterruptEnabled <==> u'.regs.interruptControl / 2 % 2 == 1)
  {
    if e.PortWrite? && e.address % 8 == 1 && u.regs.lineControl < 0x80 {
      EnableWriteExactly(u, e.address, e.data);
      StoreExactly(u.regs, e.address, e.data, InterruptEnable);
      LowBits(e.data);
    } else {
      EnablesKept(u, e);
    }
  }

  lemma EnablesKept(u: Uart, e: Event)
    requires !(e.PortWrite? && e.address % 8 == 1 && u.regs.lineControl < 0x80)
    ensures Step(u, e).lines.readInterruptEnabled == u.lines.readInterruptEnabled
    ensures Step(u, e).lines.writeInterruptEnabled == u.lines.writeInterruptEnabled
    ensures Step(u, e).regs.interruptControl == u.regs.interruptControl
  {
    assert !ActionOf(u.regs, e).Enable?;
    OtherActionsKeepEnables(u.lines, ActionOf(u.regs, e));
    if e.PortWrite? {
      StoreExactly(u.regs, e.address, e.data, InterruptEnable);
    }
  }

  lemma OtherActionsKeepEnables(c: Lines, a: Action)
    requires !a.Enable?
    ensures Act(c, a).readInterruptEnabled == c.readInterruptEnabled
    ensures Act(c, a).writeInterruptEnabled == c.writeInterruptEnabled
  {
    match a
    case Arrive(_, _) =>
    case ReadTimerFires =>
    case WriteTimerFires =>
    case TakeData(_) =>
    case SendData(_) =>
    case Identify =>
    case Nop =>
  }

  lemma LowBits(data: byte)
    ensures data % 0x10 % 2 == data % 2 && data % 0x10 / 2 % 2 == data / 2 % 2
  {
    var q, r := data / 0x10, data % 0x10;
    assert data == 16 * q + r;
    assert data / 2 == 8 * q + r / 2;
  }
}
