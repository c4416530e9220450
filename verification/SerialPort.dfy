/** The 16450 serial port's handlers: what they update, and that each takes one step of Uart. */
module SerialPort {
  import opened Words
  import opened Uart

  class Serial16450 {
    var regs: Registers   // the `registers` structure: the bytes the guest stores,
    var lines: Lines      // and its flags, with mEventFlags and the two timers
    var irq: nat          // times the interrupt eventfd was written
    var hasClient: bool
    var interestIn: bool  // what epoll watches on the client
    var interestOut: bool
    var sent: seq<byte>   // bytes handed to the client

    function State(): Uart
      reads this
    {
      Uart(regs, lines)
    }

    /** epoll watches the client for exactly what mEventFlags says. */
    predicate Watching()
      reads this
    {
      hasClient ==> interestIn == lines.armedIn && interestOut == lines.armedOut
    }

    constructor ()
      ensures State() == INITIAL && irq == 0 && sent == [] && !hasClient && Watching()
    {
      regs, lines := Registers(0, 0, 0, 0, 0, 0), IDLE;
      irq, hasClient, interestIn, interestOut, sent := 0, false, false, false, [];
    }

    method Accept()
      requires !hasClient && Watching()
      modifies `hasClient, `interestIn, `interestOut
      ensures hasClient && Watching()
    {
      interestIn, interestOut := lines.armedIn, lines.armedOut;
      hasClient := true;
    }

    method ReloadEventLoop()
      modifies `interestIn, `interestOut
      ensures Watching()
    {
      if hasClient {
        interestIn, interestOut := lines.armedIn, lines.armedOut;
      }
    }

    method TriggerInterrupt()
      modifies `irq
      ensures irq == old(irq) + 1
    {
      irq := irq + 1;
    }

    method InputReady()
      modifies `lines, `irq
      ensures lines == Act(old(lines), Arrive(true, false))
      ensures irq == old(irq) + Raises(old(lines), Arrive(true, false))
    {
      lines := lines.(readable := true, readInterruptFlag := true, armedIn := false);
      if lines.readInterruptEnabled {
        if !lines.writeInterruptEnabled || !lines.writeInterruptFlag {
          TriggerInterrupt();
        }
      }
    }

    method OutputReady()
      modifies `lines, `irq
      ensures lines == Act(old(lines), Arrive(false, true))
      ensures irq == old(irq) + Raises(old(lines), Arrive(false, true))
    {
      lines := lines.(writable := true, writeInterruptFlag := true, armedOut := false);
      if lines.writeInterruptEnabled {
        if !lines.readInterruptEnabled || !lines.readInterruptFlag {
          TriggerInterrupt();
        }
      }
    }

    method HandleClientEvent(input: bool, output: bool)
      requires hasClient && Watching()
      modifies `lines, `irq, `interestIn, `interestOut
      ensures State() == Step(old(State()), ClientReady(input, output))
      ensures irq == old(irq) + Irqs(old(State()), ClientReady(input, output))
      ensures Watching()
    {
      ArriveSplits(lines, input, output);
      if input {
        InputReady();
      }
      if output {
        OutputReady();
      }
      interestIn, interestOut := lines.armedIn, lines.armedOut;
    }

    method OnReadTimer()
      requires lines.readTimer && Watching()
      modifies `lines, `interestIn, `interestOut
      ensures State() == Step(old(State()), ReadTimerFired) && Watching()
    {
      lines := lines.(readTimer := false, armedIn := true);
      ReloadEventLoop();
    }

    method OnWriteTimer()
      requires lines.writeTimer && Watching()
      modifies `lines, `interestIn, `interestOut
      ensures State() == Step(old(State()), WriteTimerFired) && Watching()
    {
      lines := lines.(writeTimer := false, armedOut := true);
      ReloadEventLoop();
    }

    /** timerfd_settime with one character's delay. */
    method StartTimer(divisor: word, running: bool) returns (runs: bool)
      ensures runs == SetTimer(divisor, running)
    {
      SetTimerExactly(divisor, running);
      var delay := 1600000000 * divisor as int / 18432;
      runs := if delay == 0 then false else if delay > 999999999 then running else true;
    }

    /** Take over the enables; a re-enabled interrupt's flag is set if its condition holds. */
    method StoreEnables(read: bool, write: bool)
      modifies `lines
      ensures lines == Act(old(lines), Enable(read, write))
    {
      lines := lines.(readInterruptEnabled := read, writeInterruptEnabled := write);
      if read {
        lines := lines.(readInterruptFlag := lines.readable);
      }
      if write {
        lines := lines.(writeInterruptFlag := lines.writable);
      }
    }

    /** The interrupt-enable register, with its two bits decoded. */
    method EnableInterrupts(read: bool, write: bool)
      modifies `lines, `irq
      ensures lines == Act(old(lines), Enable(read, write))
      ensures irq == old(irq) + Raises(old(lines), Enable(read, write))
    {
      var pReadInterruptEnabled := lines.readInterruptEnabled;
      var pWriteInterruptEnabled := lines.writeInterruptEnabled;
      StoreEnables(read, write);
      if (!pReadInterruptEnabled || !lines.readInterruptFlag)
         && (!pWriteInterruptEnabled || !lines.writeInterruptFlag) {
        if (lines.readInterruptEnabled && lines.readInterruptFlag)
           || (lines.writeInterruptEnabled && lines.writeInterruptFlag) {
          TriggerInterrupt();
        }
      }
    }

    /** The write handler: a byte goes out to the client only through an open data register. */
    method Iowrite8(address: word, data: byte)
      requires Watching()
      modifies `regs, `lines, `irq, `sent
      ensures State() == Step(old(State()), PortWrite(address, data))
      ensures irq == old(irq) + Irqs(old(State()), PortWrite(address, data))
      ensures sent == old(sent) + if address % 8 == 0 && !old(regs).Dlab() && hasClient then [data] else []
      ensures Watching()
    {
      var r := address % 8;
      if r == 0 {
        if !regs.Dlab() {
          if hasClient {
            sent := sent + [data];
          }
          lines := lines.(writable := false, writeInterruptFlag := false);
          var runs := StartTimer(regs.divisor, lines.writeTimer);
          lines := lines.(writeTimer := runs);
        } else {
          regs := regs.(divisor := regs.divisor / 0x100 * 0x100 + data);
        }
      } else if r == 1 {
        if !regs.Dlab() {
          LowBits(data);
          regs := regs.(interruptControl := data % 0x10);
          EnableInterrupts(regs.interruptControl % 2 == 1, regs.interruptControl / 2 % 2 == 1);
        } else {
          regs := regs.(divisor := data as int * 0x100 + regs.divisor % 0x100);
        }
      } else if r == 3 {
        regs := regs.(lineControl := data);
      } else if r == 4 {
        regs := regs.(modemControl := data % 0x20);
      } else if r == 7 {
        regs := regs.(scratchpad := data);
      }
    }

    /** The open data register. */
    method ReadData(incoming: Incoming) returns (value: byte)
      requires !regs.Dlab()
      modifies `regs, `lines
      ensures lines == Act(old(lines), TakeData(old(regs).divisor))
      ensures regs == if incoming.Arrived? then old(regs).(receive := incoming.b) else old(regs)
      ensures value == regs.receive
    {
      if incoming.Arrived? {
        regs := regs.(receive := incoming.b);
      }
      lines := lines.(readable := false, readInterruptFlag := false);
      var runs := StartTimer(regs.divisor, lines.readTimer);
      lines := lines.(readTimer := runs);
      return regs.receive;
    }

    /** The interrupt identification register; reading it takes the transmit cause. */
    method ReadIdentification() returns (value: byte)
      modifies `lines
      ensures value == old(lines).Identification() && lines == Act(old(lines), Identify)
    {
      if lines.readInterruptEnabled && lines.readInterruptFlag {
        return 0x04;
      }
      if lines.writeInterruptEnabled && lines.writeInterruptFlag {
        lines := lines.(writeInterruptFlag := false);
        return 0x02;
      }
      return 0x01;
    }

    /** The read handler; `incoming` is what the client's socket can give. */
    method Ioread8(address: word, incoming: Incoming) returns (value: byte)
      requires Watching() && (!hasClient ==> incoming.Nothing?)
      modifies `regs, `lines
      ensures State() == Step(old(State()), PortRead(address, incoming))
      ensures value == Value(old(State()), address, incoming)
      ensures Watching()
    {
      var r := address % 8;
      if r == 0 {
        if !regs.Dlab() {
          value := ReadData(incoming);
          return;
        }
        return regs.divisor % 0x100;
      } else if r == 1 {
        if !regs.Dlab() {
          return regs.interruptControl;
        }
        return regs.divisor / 0x100;
      } else if r == 2 {
        value := ReadIdentification();
      } else if r == 3 {
        return regs.lineControl;
      } else if r == 4 {
        return regs.modemControl;
      } else if r == 5 {
        return (if lines.writable then 0x60 else 0x00) + (if lines.readable then 0x01 else 0x00);
      } else if r == 6 {
        return 0;
      } else {
        return regs.scratchpad;
      }
    }
  }
}
