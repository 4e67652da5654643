/**
  Two chips on a wired-AND bus: a software I2C master that drives the pins bit by bit, and
  the interrupt-driven slave.

  Every pin write of the master that changes a line runs the slave's interrupt handlers, and
  the slave's event task may run before any of the master's steps.  The methods of `Wire` are
  the master's, and their contracts hold for every such interleaving.
*/
module TwiBus {
  import opened Words
  import opened TwiSlave
  import opened TwiProtocol

  /** The slave after the handler for the line that changed. */
  function Served(s: Slave, sdaChanged: bool, sclChanged: bool, sda: bool, scl: bool): Slave
    requires sclChanged ==> Valid(s) && s.scl
    requires sdaChanged && scl ==> Valid(s) && s.scl
  {
    if sclChanged then OnScl(s, sda, scl)
    else if sdaChanged then OnSda(s, sda, scl)
    else s
  }

  /** The slave between two clock cycles, or idle with its clock held until a message is delivered. */
  ghost predicate AtRest(s: Slave) {
    Valid(s) && (s.scl || Quiet(s))
  }

  /** Before or after the event task has brought the slave into state n. */
  ghost predicate Settling(s: Slave, n: Slave) {
    && Valid(s) && Valid(n)
    && (s == n || (!s.queue.Nothing? && (s.phase.SlaR? || s.phase.Idle?) && Task(s) == n))
  }

  /** What a master does between a START and a STOP, and what it is told. */
  datatype Transfer = Sending(address: byte, data: seq<byte>) | Fetching(address: byte, len: nat)

  datatype Outcome = Outcome(result: nat, data: seq<byte>)

  class Wire {
    // The master's open-drain drivers, true when released.
    var sda: bool
    var scl: bool
    const slave: Twi

    constructor (chip: Twi)
      requires Valid(chip.View()) && chip.state.Idle? && chip.sda && chip.queue.Nothing?
      ensures slave == chip && sda && scl && BusFree()
    {
      slave := chip;
      sda, scl := true, true;
    }

    ghost function View(): Slave
      reads this, slave
    {
      slave.View()
    }

    predicate SdaLine()
      reads this, slave
    {
      sda && slave.sda
    }

    predicate SclLine()
      reads this, slave
    {
      scl && slave.scl
    }

    /**
      Runs the handler of the line that has changed since the levels were sda0 and scl0, and
      then the handlers of the lines changed by that handler, which find nothing to do.
    */
    method Interrupts(sda0: bool, scl0: bool)
      requires SclLine() == scl0 || SdaLine() == sda0
      requires SclLine() != scl0 ==> Valid(View()) && slave.scl
      requires SdaLine() != sda0 && SclLine() ==> Valid(View()) && slave.sda
      modifies slave
      ensures View() == Served(old(View()), old(SdaLine()) != sda0, old(SclLine()) != scl0,
                               old(SdaLine()), old(SclLine()))
    {
      if SclLine() != scl0 {
        ClockInterrupt();
      } else if SdaLine() != sda0 {
        DataInterrupt();
      }
    }

    method ClockInterrupt()
      requires Valid(View()) && slave.scl
      modifies slave
      ensures View() == OnScl(old(View()), old(SdaLine()), old(SclLine()))
    {
      var sda1, scl1 := SdaLine(), SclLine();
      HandlerPins(View(), sda1, scl1);
      slave.OnSclChange(sda1, scl1);
      if SdaLine() != sda1 {
        slave.OnSdaChange(SdaLine(), SclLine());
      }
    }

    method DataInterrupt()
      requires SclLine() ==> Valid(View()) && slave.sda
      modifies slave
      ensures View() == OnSda(old(View()), old(SdaLine()), old(SclLine()))
    {
      var sda1, scl1 := SdaLine(), SclLine();
      if scl1 {
        ClockPulse(View(), sda1);
      }
      slave.OnSdaChange(sda1, scl1);
      if SclLine() != scl1 {
        slave.OnSclChange(SdaLine(), SclLine());
      }
    }

    /** A slave that pulls the clock low at a STOP or START ignores the edge it makes. */
    static lemma ClockPulse(s: Slave, sda: bool)
      requires Valid(s) && s.scl
      ensures var e := OnSda(s, sda, true);
              Valid(e) && (!e.scl ==> e.phase.Idle? || e.phase.RepStart?)
    {
      OnSdaKeepsValid(s, sda, true);
    }

    /** A clock handler changes no pin on a rising edge and never makes an edge itself. */
    static lemma HandlerPins(s: Slave, sda: bool, scl: bool)
      requires Valid(s) && s.scl
      ensures scl ==> OnScl(s, sda, scl).sda == s.sda && OnScl(s, sda, scl).scl
    {
      if scl {
        RiseKeepsPins(s, sda);
      }
    }

    method SetScl(level: bool)
      requires Valid(View())
      modifies this, slave
      ensures scl == level && sda == old(sda)
      ensures View() == if level == old(scl) || !old(slave.scl) then old(View())
                        else OnScl(old(View()), old(SdaLine()), level)
    {
      var sda0, scl0 := SdaLine(), SclLine();
      scl := level;
      Interrupts(sda0, scl0);
    }

    method SetSda(level: bool)
      requires Valid(View())
      modifies this, slave
      ensures sda == level && scl == old(scl)
      ensures View() == if level == old(sda) || !old(slave.sda) then old(View())
                        else OnSda(old(View()), level, old(SclLine()))
    {
      var sda0, scl0 := SdaLine(), SclLine();
      sda := level;
      Interrupts(sda0, scl0);
    }

    /** The event task, with the interrupts its own pin writes raise. */
    method EventTask()
      requires Valid(View()) && !slave.queue.Nothing? && (slave.state.SlaR? || slave.state.Idle?)
      modifies slave
      ensures View() == Task(old(View()))
    {
      if slave.queue.SigTx? {
        AnswerTask();
      } else {
        DeliveryTask();
      }
    }

    method AnswerTask()
      requires Valid(View()) && slave.queue.SigTx?
      modifies slave
      ensures View() == Task(old(View()))
    {
      var sda0, scl0 := SdaLine(), SclLine();
      ghost var s := View();
      slave.BeginAnswer();
      Interrupts(sda0, scl0);
      LetGo(s);
    }

    /** The rest of the transmit task: the reply that lets the clock go. */
    method LetGo(ghost s: Slave)
      requires Valid(s) && s.queue.SigTx? && View() == LoadFirst(s)
      modifies slave
      ensures View() == Task(s)
    {
      AnswerIgnoresRise(s);
      var sda1, scl1 := SdaLine(), SclLine();
      slave.ReplyTo(slave.txIndex < slave.txLength);
      Interrupts(sda1, scl1);
    }

    static lemma AnswerIgnoresRise(s: Slave)
      requires Valid(s) && s.queue.SigTx?
      ensures Valid(Task(s)) && Task(s).scl
      ensures Task(s) == Reply(LoadFirst(s), LoadFirst(s).txIndex < LoadFirst(s).txLength)
      ensures forall sda :: OnScl(Task(s), sda, true) == Task(s)
    {
      TaskKeepsValid(s);
    }

    method DeliveryTask()
      requires Valid(View()) && slave.queue.SigRx? && slave.state.Idle?
      modifies slave
      ensures View() == Task(old(View()))
    {
      var sda0, scl0 := SdaLine(), SclLine();
      var n := slave.queue.len;
      slave.BeginDelivery();
      Interrupts(sda0, scl0);
      slave.DeliverMessage(n);
    }

    /** The event task may run here. */
    method MaybeTask(ghost n: Slave)
      requires Settling(View(), n) && n.queue.Nothing?
      modifies slave
      ensures Settling(View(), n) && (View() == old(View()) || View() == n)
    {
      var scheduled: bool := *;
      if scheduled && !slave.queue.Nothing? {
        EventTask();
      }
    }

    /**
      `WAIT_CLOCK_STRETCH` within the stretch limit: returns once the clock line is high.  A
      slave that holds the clock has a task queued that lets it go.
    */
    method WaitClockStretch(ghost n: Slave)
      requires scl && Settling(View(), n) && n.queue.Nothing?
      modifies slave
      ensures View() == n && SclLine()
    {
      if !SclLine() {
        EventTask();
      }
    }

    // ---------------------------------------------------------------- bits

    /** The master's pins between two clock cycles. */
    ghost predicate Ready()
      reads this, slave
    {
      scl && AtRest(View()) && !slave.state.RepStart?
    }

    /** `write_bit`: one clock cycle of the slave, wherever its event task runs. */
    method WriteBit(bit: bool)
      requires Ready()
      modifies this, slave
      ensures Ready() && SclLine() && sda == bit
      ensures View() == Cycle(Drain(old(View())), bit)
    {
      ghost var n := Low(Drain(View()));
      LowPhase(bit);
      HighPhase(n);
    }

    /** `read_bit`: a clock cycle with SDA let go, and the level of the line in its high phase. */
    method ReadBit() returns (bit: bool)
      requires Ready()
      modifies this, slave
      ensures Ready() && SclLine() && sda
      ensures View() == Cycle(Drain(old(View())), true)
      ensures bit == Low(Drain(old(View()))).sda
    {
      ghost var n := Low(Drain(View()));
      LowPhase(true);
      HighPhase(n);
      bit := SdaLine();
      RiseKeepsPins(n, n.sda);
    }

    /** The first half of a clock cycle: SCL low, then the data bit on SDA. */
    method LowPhase(bit: bool)
      requires Ready()
      modifies this, slave
      ensures !scl && sda == bit
      ensures Settling(View(), Low(Drain(old(View())))) && !Low(Drain(old(View()))).phase.RepStart?
    {
      ghost var n := Low(Drain(View()));
      CycleSettles(View());
      SetScl(false);
      MaybeTask(n);
      SetSda(bit);
      MaybeTask(n);
    }

    /** The second half: SCL let go, and the wait for it to rise. */
    method HighPhase(ghost n: Slave)
      requires !scl && Settling(View(), n) && n.scl && n.queue.Nothing? && !n.phase.RepStart?
      modifies this, slave
      ensures scl && sda == old(sda) && Ready() && SclLine()
      ensures View() == Rise(n, sda && n.sda)
    {
      RisingSettles(View(), n, sda);
      SetScl(true);
      RiseKeepsPins(n, sda && n.sda);
      WaitClockStretch(Rise(n, sda && n.sda));
    }

    /** After the falling edge the slave is on its way to Low(Drain(s)). */
    static lemma CycleSettles(s: Slave)
      requires AtRest(s) && !s.phase.RepStart?
      ensures var n := Low(Drain(s));
              Settling(if s.scl then Fall(s) else s, n) && !n.phase.RepStart?
    {
      if s.scl {
        var f := Fall(s);
        assert Drain(s) == s;
      } else {
        IdleSettles(s);
      }
    }

    static lemma IdleSettles(s: Slave)
      requires Quiet(s)
      ensures Settling(s, Low(Drain(s))) && !Low(Drain(s)).phase.RepStart?
    {
      DrainIdle(s);
      IdleIgnoresClock(Drain(s), true);
    }

    /** The rising edge is the same before and after the event task. */
    static lemma RisingSettles(s: Slave, n: Slave, v: bool)
      requires Settling(s, n) && n.scl && n.queue.Nothing?
      ensures s == n || (!s.scl && Settling(s, Rise(n, v && n.sda)))
      ensures s.scl ==> s == n
    {
      if s != n {
        TaskKeepsValid(s);
        assert Rise(n, v && n.sda) == n;
      }
    }

    // ---------------------------------------------------------------- bytes

    /** A slave that will take the next byte, or one that missed the START and takes nothing. */
    static ghost predicate Listening(s: Slave) {
      AtRest(s) && !s.phase.RepStart? && (Quiet(s) || (s.queue.Nothing? && ReadyForByte(Fall(s))))
    }

    /** The slave after k bits of a byte. */
    static ghost function MidByte(s: Slave, b: byte, k: nat): Slave
      requires Listening(s) && k <= 8
    {
      if k == 0 then s
      else if s.phase.Idle? then Drain(s)
      else AfterBits(Fall(s), b, k)
    }

    static lemma MidByteStep(s: Slave, b: byte, k: nat)
      requires Listening(s) && k < 8
      ensures var m := MidByte(s, b, k);
              AtRest(m) && Cycle(Drain(m), Top(Sent(b, k))) == MidByte(s, b, k + 1)
    {
      if s.phase.Idle? {
        DrainIdle(s);
        IdleIgnoresClock(Drain(s), Top(Sent(b, k)));
      } else if k == 0 {
        FirstBit(s, b);
      } else {
        OneMoreBit(Fall(s), b, k);
      }
    }

    /** The slave after a byte, and whether it drove the acknowledgement. */
    static ghost function ByteEnd(s: Slave, b: byte): Slave
      requires Listening(s)
    {
      if s.phase.Idle? then Drain(s) else AfterByte(Fall(s), b)
    }

    static lemma MidByteEnd(s: Slave, b: byte)
      requires Listening(s)
      ensures var m := MidByte(s, b, 8);
              && AtRest(m)
              && Cycle(Drain(m), true) == ByteEnd(s, b)
              && (Low(Drain(m)).sda <==> s.phase.Idle? || !Acks(Fall(s), b))
    {
      if s.phase.Idle? {
        DrainIdle(s);
        IdleIgnoresClock(Drain(s), true);
      } else {
        AckCycle(Fall(s), b);
      }
    }

    /** `write_byte`. */
    method WriteByte(byte: byte) returns (acked: bool)
      requires Ready() && Listening(View())
      modifies this, slave
      ensures Ready() && SclLine() && sda
      ensures View() == ByteEnd(old(View()), byte)
      ensures acked <==> !old(View()).phase.Idle? && Acks(Fall(old(View())), byte)
    {
      ghost var s := View();
      var left := byte;
      for bit := 0 to 8
        invariant Ready() && View() == MidByte(s, byte, bit)
        invariant left == Sent(byte, bit)
      {
        MidByteStep(s, byte, bit);
        WriteBit(Top(left));
        left := Left(left);
      }
      MidByteEnd(s, byte);
      var nack := ReadBit();
      acked := !nack;
    }

    /** A slave that shows a byte of its answer, or one that has left the bus. */
    static ghost predicate Talking(s: Slave) {
      && Valid(s) && s.scl && !s.phase.RepStart?
      && (Showing(Low(s)) || Low(s).phase.WaitStop?)
    }

    static ghost function Spoken(s: Slave): byte
      requires Talking(s)
    {
      if Low(s).phase.WaitStop? then 255 else Shown(Low(s))
    }

    /** The slave once k bits have been read. */
    static ghost function MidAnswer(s: Slave, k: nat): Slave
      requires Talking(s) && k <= 8
    {
      if k == 0 then s
      else if Low(s).phase.WaitStop? then Low(s)
      else AfterSent(Low(s), k)
    }

    static lemma MidAnswerStep(s: Slave, k: nat)
      requires Talking(s) && k < 8
      ensures var m := MidAnswer(s, k);
              && Valid(m) && m.scl && !m.phase.RepStart?
              && Cycle(m, true) == MidAnswer(s, k + 1)
              && (Low(m).sda <==> Top(Sent(Spoken(s), k)))
    {
      if Low(s).phase.WaitStop? {
        OffTheBusIgnoresClock(s, true);
        AllOnes(k);
      } else if k == 0 {
        FirstBitSent(s);
      } else {
        NextBitSent(Low(s), k);
      }
    }

    /** The slave after a byte of its answer and the master's acknowledge bit. */
    static ghost function AnswerEnd(s: Slave, nack: bool): Slave
      requires Talking(s)
    {
      if Low(s).phase.WaitStop? then Low(s) else AfterAnswerByte(Low(s), nack)
    }

    static lemma MidAnswerEnd(s: Slave, nack: bool)
      requires Talking(s)
      ensures var m := MidAnswer(s, 8);
              Valid(m) && m.scl && !m.phase.RepStart? && Cycle(m, nack) == AnswerEnd(s, nack)
    {
      if Low(s).phase.WaitStop? {
        OffTheBusIgnoresClock(s, nack);
      } else {
        AnswerByteSent(Low(s), nack);
      }
    }

    /** `read_byte`. */
    method ReadByte(nack: bool) returns (byte: byte)
      requires Ready() && Talking(View())
      modifies this, slave
      ensures Ready() && SclLine() && View() == AnswerEnd(old(View()), nack)
      ensures byte == Spoken(old(View()))
    {
      ghost var s := View();
      byte := 0;
      for bit := 0 to 8
        invariant Ready() && View() == MidAnswer(s, bit)
        invariant byte == Taken(0, Spoken(s), bit)
      {
        MidAnswerStep(s, bit);
        var level := ReadBit();
        byte := ShiftIn(byte, level);
      }
      EightBits(0, Spoken(s), 8);
      MidAnswerEnd(s, nack);
      WriteBit(nack);
    }

    // ---------------------------------------------------------------- START and STOP

    /** Between transactions: the master has let go of both lines and the slave is idle. */
    ghost predicate BusFree()
      reads this, slave
    {
      sda && scl && Quiet(View())
    }

    /** The slave was left driving SDA, by a transaction that ended without a STOP. */
    ghost predicate BusBusy()
      reads this, slave
    {
      sda && scl && Valid(View()) && !slave.sda && slave.queue.Nothing?
    }

    /**
      `write_start`.  The slave sees the START exactly when it does not hold the clock low at
      that moment, that is, when it has delivered the previous message.
    */
    method WriteStart() returns (ok: bool, ghost seen: bool)
      requires BusFree() || BusBusy()
      modifies this, slave
      ensures ok <==> old(BusFree())
      ensures !ok ==> View() == old(View()) && sda && scl
      ensures ok ==> Ready() && !sda
      ensures ok && seen ==> View() == OnSda(Drain(old(View())), false, true)
      ensures ok && !seen ==>
        !old(View()).queue.Nothing? && (View() == old(View()) || View() == Drain(old(View())))
    {
      ghost var d := Drain(View());
      QuietSettles(View());
      SetScl(true);
      SetSda(true);
      MaybeTask(d);
      ok := SdaLine();
      seen := SclLine();
      if !ok {
        return;
      }
      SeenStart(View(), seen);
      SetSda(false);
      MaybeTask(if seen then View() else d);
    }

    static lemma QuietSettles(s: Slave)
      ensures Quiet(s) ==> Quiet(Drain(s)) && Settling(s, Drain(s))
      requires Valid(s)
    {
      if Quiet(s) {
        DrainIdle(s);
      }
    }

    static lemma SeenStart(s: Slave, seen: bool)
      requires Quiet(s) && (seen <==> s.scl)
      ensures seen ==> Valid(OnSda(s, false, true)) && OnSda(s, false, true).queue.Nothing?
                       && OnSda(s, false, true).phase.Start? && s == Drain(s)
      ensures !seen ==> OnSda(s, false, false) == s
    {
      if seen {
        StartSeen(s);
      }
    }

    /** `write_stop`: a clock cycle with SDA low, and SDA let go while the clock is high. */
    method WriteStop()
      requires Ready() && Low(Drain(View())).sda && Quiet(AfterStop(Drain(View())))
      modifies this, slave
      ensures BusFree() && SdaLine()
      ensures var e := AfterStop(Drain(old(View()))); View() == e || View() == Drain(e)
    {
      ghost var e := AfterStop(Drain(View()));
      RiseKeepsPins(Low(Drain(View())), false);
      WriteBit(false);
      SetSda(true);
      QuietSettles(e);
      MaybeTask(Drain(e));
    }

    // ---------------------------------------------------------------- transactions

    /** Both are quiet, and what the slave has been or will be handed differs by `more`. */
    static ghost predicate Gained(e: Slave, s: Slave, more: seq<seq<byte>>) {
      Quiet(e) && Quiet(s) && SameIdentity(e, s) && Delivered(e) == Delivered(s) + more
    }

    /** With nothing left to deliver, `more` is exactly what the receive callback has been handed since. */
    static lemma GainedMeans(e: Slave, s: Slave, more: seq<seq<byte>>)
      requires Gained(e, s, more) && s.queue.Nothing?
      ensures e.queue.Nothing? ==> e.received == s.received + more
      ensures e.queue.SigRx? ==> e.queue.len <= |e.rx| && e.received + [e.rx[..e.queue.len]] == s.received + more
    {
      assert s.received + [] == s.received && e.received + [] == e.received;
    }

    static lemma GainedDrain(e: Slave, s: Slave, more: seq<seq<byte>>)
      requires Quiet(s)
      requires Gained(e, s, more) || Gained(e, Drain(s), more)
      ensures Gained(e, s, more) && Gained(Drain(e), s, more)
    {
      DrainIdle(e);
      DrainIdle(s);
    }

    /** A slave that missed the START sits the transaction out. */
    static lemma MissedTransaction(s: Slave)
      requires Quiet(s)
      ensures Listening(s) && ByteEnd(s, 0) == Drain(s) && AfterStop(Drain(s)) == Drain(s)
      ensures Low(Drain(s)).sda && Gained(Drain(s), s, [])
    {
      DrainIdle(s);
      IdleIgnoresClock(Drain(s), true);
    }

    /** The slave after the STOP of a transaction it no longer takes part in. */
    static lemma StopAloof(s: Slave, before: Slave)
      requires Valid(s) && s.scl && s.queue.Nothing? && OffTheBus(Fall(s), before.received)
      requires SameIdentity(Fall(s), before) && Quiet(before) && before.queue.Nothing?
      ensures Low(Drain(s)).sda && Gained(AfterStop(Drain(s)), before, [])
      ensures AfterStop(Drain(s)).queue.Nothing?
    {
      StopAfterWait(s);
    }

    /** What the address byte of a write or read does to a slave that saw the START. */
    static lemma AddressByte(d: Slave, b: byte)
      requires Quiet(d) && d.queue.Nothing?
      ensures var r := OnSda(d, false, true);
              && Listening(r) && ByteEnd(r, b) == AfterByte(r, b) && Fall(r) == r && !r.phase.Idle?
              && (Acks(r, b) <==> b - b % 2 == d.addr)
    {
      StartSeen(d);
    }

    static lemma WrongAddress(d: Slave, b: byte)
      requires Quiet(d) && d.queue.Nothing? && b - b % 2 != d.addr
      ensures var s := AfterByte(OnSda(d, false, true), b);
              Valid(s) && s.scl && s.queue.Nothing? && OffTheBus(Fall(s), d.received) && SameIdentity(Fall(s), d)
    {
      StartSeen(d);
      NotAddressed(OnSda(d, false, true), b);
    }

    /** The slave has acknowledged its address and the first n bytes of buf. */
    static ghost predicate Storing(s: Slave, buf: seq<byte>, n: nat, d: Slave)
      requires n <= |buf|
    {
      && Valid(s) && s.scl && s.queue.Nothing? && s.phase.WaitAck?
      && Collected(Fall(s), buf, n, d.received) && SameIdentity(Fall(s), d)
    }

    static lemma RightAddressWrite(d: Slave, b: byte, buf: seq<byte>)
      requires Quiet(d) && d.queue.Nothing? && b == d.addr
      ensures Storing(AfterByte(OnSda(d, false, true), b), buf, 0, d)
    {
      StartSeen(d);
      AddressedForWriting(OnSda(d, false, true), b, buf);
    }

    static lemma StoringStep(s: Slave, buf: seq<byte>, n: nat, d: Slave)
      requires n < |buf| && Storing(s, buf, n, d) && Quiet(d) && d.queue.Nothing?
      ensures Listening(s) && ByteEnd(s, buf[n]) == AfterByte(Fall(s), buf[n])
      ensures n <= |d.rx| ==>
        Acks(Fall(s), buf[n]) && Storing(AfterByte(Fall(s), buf[n]), buf, n + 1, d)
      ensures n > |d.rx| ==>
        var t := AfterByte(Fall(s), buf[n]);
        && !Acks(Fall(s), buf[n])
        && Valid(t) && t.scl && t.queue.Nothing? && OffTheBus(Fall(t), d.received) && SameIdentity(Fall(t), d)
    {
      if n <= |d.rx| {
        ByteCollected(Fall(s), buf, n, d.received);
      } else {
        ByteRefused(Fall(s), buf, n, d.received);
      }
    }

    static lemma StopStoring(s: Slave, buf: seq<byte>, n: nat, d: Slave)
      requires n <= |buf| && Storing(s, buf, n, d) && Quiet(d) && d.queue.Nothing?
      ensures Low(Drain(s)).sda && n <= |d.rx| + 1
      ensures Gained(AfterStop(Drain(s)), d, [buf[..Min(n, |d.rx|)]])
    {
      StopAfterMessage(s, buf, n, d.received);
    }

    /**
      The opening of `writeTo` and `readFrom`: START and address byte, with a STOP if nobody
      answers.  The slave answers exactly when it saw the START and the address is its own.
    */
    method Address(byte: byte) returns (result: nat, ghost seen: bool)
      requires BusFree() || BusBusy()
      modifies this, slave
      ensures old(BusBusy()) ==> result == 4 && View() == old(View()) && BusBusy()
      ensures old(BusFree()) && old(View()).queue.Nothing? ==> seen
      ensures old(BusFree()) ==>
        result == (if seen && byte - byte % 2 == old(View()).addr then 0 else 2)
      ensures result == 2 ==>
        BusFree() && SdaLine() && Gained(View(), old(View()), []) && View().queue.Nothing?
      ensures result == 0 ==>
        Ready() && View() == AfterByte(OnSda(Drain(old(View())), false, true), byte)
    {
      var ok;
      ghost var s0 := View();
      ok, seen := WriteStart();
      if !ok {
        return 4, seen;
      }
      ghost var d := Drain(s0);
      MissedTransaction(s0);
      GainedDrain(d, s0, []);
      AddressByte(d, byte);
      var acked := WriteByte(byte);
      if !acked {
        Dismiss(s0, d, seen, byte);
        return 2, seen;
      }
      result := 0;
    }

    /** The STOP after an address byte that nobody acknowledged. */
    method Dismiss(ghost s0: Slave, ghost d: Slave, ghost seen: bool, ghost byte: byte)
      requires Quiet(s0) && d == Drain(s0) && Ready()
      requires View() == if seen then AfterByte(OnSda(d, false, true), byte) else d
      requires seen ==> byte - byte % 2 != s0.addr
      modifies this, slave
      ensures BusFree() && SdaLine() && Gained(View(), s0, []) && View().queue.Nothing?
    {
      MissedTransaction(s0);
      DrainIdle(s0);
      if seen {
        WrongAddress(d, byte);
        StopAloof(View(), d);
      }
      GainedDrain(AfterStop(Drain(View())), s0, []);
      WriteStop();
    }

    /** The STOP after the slave refused a byte. */
    method GiveUp(ghost s0: Slave, ghost d: Slave)
      requires Quiet(s0) && d == Drain(s0) && Ready()
      requires View().queue.Nothing? && OffTheBus(Fall(View()), d.received) && SameIdentity(Fall(View()), d)
      modifies this, slave
      ensures BusFree() && SdaLine() && Gained(View(), s0, []) && View().queue.Nothing?
    {
      DrainIdle(s0);
      StopAloof(View(), d);
      GainedDrain(AfterStop(Drain(View())), s0, []);
      WriteStop();
    }

    /** The STOP after a message. */
    method Finish(ghost s0: Slave, ghost d: Slave, ghost buf: seq<byte>)
      requires Quiet(s0) && d == Drain(s0) && Ready() && Storing(View(), buf, |buf|, d)
      modifies this, slave
      ensures BusFree() && SdaLine() && |buf| <= |s0.rx| + 1
      ensures Gained(View(), s0, [buf[..Min(|buf|, |s0.rx|)]])
    {
      DrainIdle(s0);
      StopStoring(View(), buf, |buf|, d);
      GainedDrain(AfterStop(Drain(View())), s0, [buf[..Min(|buf|, |d.rx|)]]);
      WriteStop();
    }

    /**
      `writeTo` with a STOP.  A slave that sees the START and has this address gets exactly one
      message: the bytes sent, cut to its buffer.  One byte too many is acknowledged but lost;
      from two too many on the master is told 3 and the slave is handed nothing.
    */
    method WriteTo(address: byte, buf: seq<byte>) returns (result: nat, ghost seen: bool)
      requires BusFree() || BusBusy()
      modifies this, slave
      ensures old(BusBusy()) ==> result == 4 && View() == old(View()) && BusBusy()
      ensures old(BusFree()) ==> BusFree() && SdaLine() && (old(View()).queue.Nothing? ==> seen)
      ensures old(BusFree()) && (!seen || Left(address) != old(View()).addr) ==>
        result == 2 && Gained(View(), old(View()), [])
      ensures old(BusFree()) && seen && Left(address) == old(View()).addr ==>
        var room := |old(View()).rx|;
        && result == (if |buf| <= room + 1 then 0 else 3)
        && Gained(View(), old(View()), if |buf| <= room + 1 then [buf[..Min(|buf|, room)]] else [])
      ensures old(BusFree()) && result != 0 ==> View().queue.Nothing?
    {
      hide Settling, Acks, OnSda, AfterByte, Listening, ByteEnd, OffTheBus, Collected, Fall;
      ghost var s0 := View();
      result, seen := Address(Left(address));
      if result != 0 {
        return;
      }
      ghost var d := Drain(s0);
      DrainIdle(s0);
      RightAddressWrite(d, Left(address), buf);
      for i := 0 to |buf|
        invariant Ready() && Storing(View(), buf, i, d)
      {
        StoringStep(View(), buf, i, d);
        var acked := WriteByte(buf[i]);
        if !acked {
          GiveUp(s0, d);
          return 3, seen;
        }
      }
      Finish(s0, d, buf);
    }

    /** Byte i of what a master reads: the slave's answer, and ones after its end. */
    static function AnswerAt(s: Slave, i: nat): byte {
      if i < |Answer(s)| then Answer(s)[i] else 255
    }

    /** The first n bytes a master reads. */
    static function AnswerBytes(s: Slave, n: nat): (bytes: seq<byte>)
      ensures |bytes| == n
    {
      seq(n, i requires 0 <= i < n => AnswerAt(s, i))
    }

    /**
      A master reads the bytes the transmit callback supplies, and ones behind them; when it supplies
      none, or more than the buffer holds, a single zero stands for them.
    */
    static predicate AnswersWith(supply: seq<byte>, room: nat, buf: seq<byte>) {
      if 0 < |supply| <= room then forall i :: 0 <= i < |buf| ==> buf[i] == if i < |supply| then supply[i] else 255
      else forall i :: 0 <= i < |buf| ==> buf[i] == if i == 0 then 0 else 255
    }

    static lemma AnswerMeans(s: Slave, n: nat)
      ensures AnswersWith(s.supply, |s.tx|, AnswerBytes(s, n))
    {
    }

    static lemma OneMoreAnswerByte(s: Slave, n: nat)
      ensures AnswerBytes(s, n) + [AnswerAt(s, n)] == AnswerBytes(s, n + 1)
    {
    }

    static lemma SameAnswer(s: Slave, n: nat)
      requires Quiet(s)
      ensures AnswerBytes(Drain(s), n) == AnswerBytes(s, n)
    {
      assert Answer(Drain(s)) == Answer(s);
    }

    /** The master has read i bytes of the answer of d and acknowledged them. */
    static ghost predicate Answering(s: Slave, i: nat, d: Slave) {
      Reading(s, i, d.received) && s.queue.Nothing? && !s.phase.RepStart? && SameIdentity(s, d) && Valid(d)
    }

    static lemma RightAddressRead(d: Slave, b: byte)
      requires Quiet(d) && d.queue.Nothing? && b == d.addr + 1
      ensures Answering(AfterByte(OnSda(d, false, true), b), 0, d)
    {
      StartSeen(d);
      AddressedForReading(OnSda(d, false, true), b);
    }

    static lemma AnsweringByte(s: Slave, i: nat, d: Slave)
      requires Answering(s, i, d)
      ensures Talking(s) && Spoken(s) == AnswerAt(d, i)
      ensures SameIdentity(Low(s), d) && Answer(Low(s)) == Answer(d)
    {
    }

    static lemma AcknowledgedByte(s: Slave, i: nat, d: Slave)
      requires Answering(s, i, d) && Talking(s)
      ensures Answering(AnswerEnd(s, false), i + 1, d)
    {
      AnsweringByte(s, i, d);
      if i < |Answer(d)| {
        NextAnswerByte(Low(s), i, d.received);
      } else {
        OffTheBusIgnoresClock(s, true);
      }
    }

    static lemma RefusedByte(s: Slave, i: nat, d: Slave)
      requires Answering(s, i, d) && Talking(s)
      ensures var e := AnswerEnd(s, true);
              Valid(e) && e.scl && e.queue.Nothing? && OffTheBus(Fall(e), d.received) && SameIdentity(Fall(e), d)
    {
      AnsweringByte(s, i, d);
      if i < |Answer(d)| {
        LastAnswerByte(Low(s));
      } else {
        OffTheBusIgnoresClock(s, true);
      }
    }

    /** A byte of the answer, acknowledged. */
    method ReadNext(ghost i: nat, ghost d: Slave) returns (byte: byte)
      requires Ready() && Answering(View(), i, d)
      modifies this, slave
      ensures Ready() && Answering(View(), i + 1, d) && byte == AnswerAt(d, i)
    {
      AnsweringByte(View(), i, d);
      AcknowledgedByte(View(), i, d);
      byte := ReadByte(false);
    }

    /** The last byte of the answer, refused, and the STOP. */
    method ReadLast(ghost i: nat, ghost s0: Slave, ghost d: Slave) returns (byte: byte)
      requires Ready() && Answering(View(), i, d) && Quiet(s0) && d == Drain(s0)
      modifies this, slave
      ensures BusFree() && SdaLine() && Gained(View(), s0, []) && View().queue.Nothing?
      ensures byte == AnswerAt(d, i)
    {
      AnsweringByte(View(), i, d);
      RefusedByte(View(), i, d);
      byte := ReadByte(true);
      GiveUp(s0, d);
    }

    /**
      `readFrom` with a STOP: the slave's answer in order, then ones, and the slave is neither
      handed a message nor left on the bus.
    */
    method ReadFrom(address: byte, len: nat) returns (result: nat, buf: seq<byte>, ghost seen: bool)
      requires BusFree() || BusBusy()
      requires len > 0
      modifies this, slave
      ensures old(BusBusy()) ==> result == 4 && View() == old(View()) && BusBusy()
      ensures old(BusFree()) ==> BusFree() && SdaLine() && (old(View()).queue.Nothing? ==> seen)
      ensures old(BusFree()) ==> Gained(View(), old(View()), []) && View().queue.Nothing?
      ensures old(BusFree()) ==>
        result == if seen && Left(address) == old(View()).addr then 0 else 2
      ensures result == 0 ==> buf == AnswerBytes(old(View()), len)
      ensures result == 0 ==> AnswersWith(old(View()).supply, |old(View()).tx|, buf)
    {
      buf := [];
      ghost var s0 := View();
      AnswerMeans(s0, len);
      result, seen := Address(Left(address) + 1);
      if result == 0 {
        buf := ReadAnswer(len, s0, Left(address) + 1);
      }
    }

    /** The data part of `readFrom`. */
    method ReadAnswer(len: nat, ghost s0: Slave, ghost b: byte) returns (buf: seq<byte>)
      requires len > 0 && Quiet(s0) && b == s0.addr + 1
      requires Ready() && View() == AfterByte(OnSda(Drain(s0), false, true), b)
      modifies this, slave
      ensures BusFree() && SdaLine() && Gained(View(), s0, []) && View().queue.Nothing?
      ensures buf == AnswerBytes(s0, len)
    {
      ghost var d := Drain(s0);
      DrainIdle(s0);
      RightAddressRead(d, b);
      SameAnswer(s0, len);
      buf := [];
      for i := 0 to len - 1
        invariant Ready() && Answering(View(), i, d)
        invariant buf == AnswerBytes(d, i)
      {
        OneMoreAnswerByte(d, i);
        var byte := ReadNext(i, d);
        buf := buf + [byte];
      }
      OneMoreAnswerByte(d, len - 1);
      var last := ReadLast(len - 1, s0, d);
      buf := buf + [last];
    }

    // ---------------------------------------------------------------- whole runs

    /** The messages a run of transfers must hand to a slave with `room` bytes of buffer. */
    static ghost function Accepted(transfers: seq<Transfer>, outcomes: seq<Outcome>, room: nat): seq<seq<byte>>
      requires |transfers| == |outcomes|
    {
      if transfers == [] then []
      else
        var n := |transfers| - 1;
        var front := Accepted(transfers[..n], outcomes[..n], room);
        front + Message(transfers[n], outcomes[n], room)
    }

    /** The message of one transfer. */
    static function Message(transfer: Transfer, outcome: Outcome, room: nat): seq<seq<byte>> {
      if transfer.Sending? && outcome.result == 0 then [transfer.data[..Min(|transfer.data|, room)]] else []
    }

    /**
      What a transfer must come to: 2 for another address; for the slave's own, the answer or the
      code that the length alone decides, and 2 only where the slave may still hold the clock.
    */
    static ghost predicate Right(transfer: Transfer, outcome: Outcome, s: Slave, held: bool) {
      if Left(transfer.address) != s.addr then outcome.result == 2
      else if held && outcome.result == 2 then true
      else
        match transfer
        case Sending(_, data) => outcome.result == if |data| <= |s.rx| + 1 then 0 else 3
        case Fetching(_, len) =>
          outcome.result == 0 && |outcome.data| == len && AnswersWith(s.supply, |s.tx|, outcome.data)
    }

    /** A slave may hold the clock at the start of a transfer only to deliver the message before it. */
    static ghost predicate Held(transfers: seq<Transfer>, outcomes: seq<Outcome>, i: nat, pending: bool)
      requires i <= |transfers| && i <= |outcomes|
    {
      if i == 0 then pending else transfers[i - 1].Sending? && outcomes[i - 1].result == 0
    }

    static lemma SameRight(transfer: Transfer, outcome: Outcome, s: Slave, t: Slave, held: bool)
      requires SameIdentity(s, t) && Quiet(s) && Quiet(t) && Right(transfer, outcome, s, held)
      ensures Right(transfer, outcome, t, held)
    {
    }

    static lemma GainedMore(e: Slave, d: Slave, s: Slave, more: seq<seq<byte>>, last: seq<seq<byte>>)
      requires Gained(e, d, last) && Gained(d, s, more)
      ensures Gained(e, s, more + last)
    {
    }

    /** One transfer of a run. */
    method Transact(transfer: Transfer) returns (outcome: Outcome)
      requires BusFree() && (transfer.Fetching? ==> transfer.len > 0)
      modifies this, slave
      ensures BusFree() && Right(transfer, outcome, old(View()), !old(View()).queue.Nothing?)
      ensures Gained(View(), old(View()), Message(transfer, outcome, |old(View()).rx|))
      ensures transfer.Fetching? || outcome.result != 0 ==> View().queue.Nothing?
    {
      match transfer
      case Sending(address, data) =>
        var result, seen := WriteTo(address, data);
        outcome := Outcome(result, []);
      case Fetching(address, len) =>
        var result, bytes, seen := ReadFrom(address, len);
        outcome := Outcome(result, bytes);
    }

    /**
      A run of writes and reads to any addresses with no pause between them.  The outcome of every
      transfer is as the address and the length have it; only right after an accepted message, or
      at the start with one undelivered, can a transfer be missed.  The slave is handed exactly the
      accepted messages, in order and once each, and every successful read yields its answer.
    */
    method Session(transfers: seq<Transfer>) returns (outcomes: seq<Outcome>)
      requires BusFree() && forall i :: 0 <= i < |transfers| && transfers[i].Fetching? ==> transfers[i].len > 0
      modifies this, slave
      ensures BusFree() && |outcomes| == |transfers|
      ensures Gained(View(), old(View()), Accepted(transfers, outcomes, |old(View()).rx|))
      ensures forall i :: 0 <= i < |transfers| ==>
        Right(transfers[i], outcomes[i], old(View()), Held(transfers, outcomes, i, !old(View()).queue.Nothing?))
    {
      hide Right, Message, AtRest;
      outcomes := [];
      ghost var s0 := View();
      ghost var pending := !s0.queue.Nothing?;
      for i := 0 to |transfers|
        invariant BusFree() && |outcomes| == i
        invariant Gained(View(), s0, Accepted(transfers[..i], outcomes, |s0.rx|))
        invariant View().queue.Nothing? || Held(transfers, outcomes, i, pending)
        invariant forall j :: 0 <= j < i ==> Right(transfers[j], outcomes[j], s0, Held(transfers, outcomes, j, pending))
      {
        ghost var d, held := View(), Held(transfers, outcomes, i, pending);
        var outcome := Transact(transfers[i]);
        MoreRight(transfers[i], outcome, d, !d.queue.Nothing?, held);
        SameRight(transfers[i], outcome, d, s0, held);
        GainedMore(View(), d, s0, Accepted(transfers[..i], outcomes, |s0.rx|), Message(transfers[i], outcome, |s0.rx|));
        assert transfers[..i + 1][..i] == transfers[..i];
        assert (outcomes + [outcome])[..i] == outcomes;
        outcomes := outcomes + [outcome];
      }
      assert transfers[..|transfers|] == transfers;
    }

    /** What the outcomes of a run say, transfer by transfer. */
    static lemma SessionMeans(transfers: seq<Transfer>, outcomes: seq<Outcome>, i: nat, s: Slave)
      requires |outcomes| == |transfers| && i < |transfers| && s.queue.Nothing?
      requires Right(transfers[i], outcomes[i], s, Held(transfers, outcomes, i, !s.queue.Nothing?))
      ensures Left(transfers[i].address) != s.addr ==> outcomes[i].result == 2
      ensures Left(transfers[i].address) == s.addr && transfers[i].Sending?
              && (i == 0 || transfers[i - 1].Fetching? || outcomes[i - 1].result != 0) ==>
        outcomes[i].result == if |transfers[i].data| <= |s.rx| + 1 then 0 else 3
      ensures Left(transfers[i].address) == s.addr && transfers[i].Fetching?
              && (i == 0 || transfers[i - 1].Fetching? || outcomes[i - 1].result != 0) ==>
        outcomes[i].result == 0
      ensures transfers[i].Fetching? && outcomes[i].result == 0 && 0 < |s.supply| <= |s.tx| ==>
        |outcomes[i].data| == transfers[i].len
        && forall j :: 0 <= j < transfers[i].len ==> outcomes[i].data[j] == if j < |s.supply| then s.supply[j] else 255
    {
    }

    /** The messages accepted, transfer by transfer. */
    static lemma AcceptedStep(transfers: seq<Transfer>, outcomes: seq<Outcome>, room: nat, t: Transfer, o: Outcome)
      requires |transfers| == |outcomes|
      ensures Accepted([], [], room) == []
      ensures Accepted(transfers + [t], outcomes + [o], room) == Accepted(transfers, outcomes, room) +
                if t.Sending? && o.result == 0 then [if |t.data| <= room then t.data else t.data[..room]] else []
    {
      MessageIs(t, o, room);
      hide Message;
      var ts, os, n := transfers + [t], outcomes + [o], |transfers|;
      assert ts[..n] == transfers && os[..n] == outcomes && ts[n] == t && os[n] == o;
    }

    static lemma MessageIs(t: Transfer, o: Outcome, room: nat)
      ensures Message(t, o, room) ==
              if t.Sending? && o.result == 0 then [if |t.data| <= room then t.data else t.data[..room]] else []
    {
      if t.Sending? && |t.data| <= room {
        assert t.data[..|t.data|] == t.data;
      }
    }

    static lemma MoreRight(transfer: Transfer, outcome: Outcome, s: Slave, held: bool, more: bool)
      requires Right(transfer, outcome, s, held) && (held ==> more)
      ensures Right(transfer, outcome, s, more)
    {
    }
  }
}
