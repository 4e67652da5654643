/**
  The interrupt-driven I2C slave of the software I2C driver.

  `Slave` is the register state of the chip; `OnScl`, `OnSda` and `Task` say how the two pin
  interrupts and the deferred event task change it.  Class `Twi` is the driver object whose
  methods update their fields step by step and are proved against those functions.
*/
module TwiSlave {
  import opened Words

  /** `twip_state`. */
  datatype Phase =
    | Idle | Start | SendAck | WaitAck | WaitStop | SlaW | SlaR | RepStart
    | Read | RecAck | ReadAck | RwaitAck | Write | BusErr

  /** `twip_mode`. */
  datatype Mode = ModeIdle | Addressed | Waiting

  /** `twi_state`, as far as the slave uses it. */
  datatype Role = Ready | Srx | Stx

  /** The event task's queue, which has a single entry. */
  datatype Pending = Nothing | SigRx(len: nat) | SigTx

  /**
    The slave chip.  `sda` and `scl` are its open-drain drivers, true when released;
    `addr` is the own address shifted left; `supply` is what the transmit callback will hand
    over; `received` lists what the receive callback has been given.
  */
  datatype Slave = Slave(
    addr: byte, supply: seq<byte>,
    phase: Phase, mode: Mode, bitCount: int, data: byte,
    ack: bool, ackRec: bool, role: Role,
    rx: seq<byte>, rxIndex: nat, tx: seq<byte>, txIndex: nat, txLength: nat,
    sda: bool, scl: bool, queue: Pending, armed: bool,
    received: seq<seq<byte>>)

  // ---------------------------------------------------------------- shift registers

  function Left(b: byte): byte {
    if b >= 128 then 2 * b - 256 else 2 * b
  }

  predicate Top(b: byte) {
    b >= 128
  }

  function ShiftIn(d: byte, v: bool): byte {
    Left(d) + if v then 1 else 0
  }

  // ---------------------------------------------------------------- what the driver does

  /** `reply`: let the clock go and remember whether to acknowledge the next byte. */
  function Reply(s: Slave, ack: bool): Slave {
    s.(scl := true, ack := ack)
  }

  /** `releaseBus`. */
  function Release(s: Slave): Slave {
    s.(scl := true, ack := true, sda := true, role := Ready)
  }

  /** `ets_post`: a post to a full queue is lost. */
  function Post(s: Slave, sig: Pending): Slave {
    if s.queue.Nothing? then s.(queue := sig) else s
  }

  // The cases of `onTwipEvent`, by the status code they serve.

  /** TW_SR_SLA_ACK. */
  function BeginReception(s: Slave): Slave {
    Reply(s.(role := Srx, rxIndex := 0), true)
  }

  /** TW_SR_DATA_ACK: a byte beyond the buffer is dropped and the next one will be refused. */
  function TakeByte(s: Slave): Slave
    requires s.rxIndex <= |s.rx|
  {
    if s.rxIndex < |s.rx|
    then Reply(s.(rx := s.rx[s.rxIndex := s.data], rxIndex := s.rxIndex + 1), true)
    else Reply(s, false)
  }

  /** TW_SR_STOP. */
  function EndReception(s: Slave): Slave
    requires s.rxIndex <= |s.rx|
  {
    Post(s, SigRx(s.rxIndex)).(rx := Terminated(s), rxIndex := 0)
  }

  function Terminated(s: Slave): seq<byte>
    requires s.rxIndex <= |s.rx|
  {
    if s.rxIndex < |s.rx| then s.rx[s.rxIndex := 0] else s.rx
  }

  /** TW_ST_SLA_ACK. */
  function AskForAnswer(s: Slave): Slave {
    Post(s, SigTx).(role := Stx, txIndex := 0, txLength := 0)
  }

  /** Takes the next byte of the transmit buffer and puts its first bit on SDA. */
  function LoadByte(s: Slave): Slave
    requires s.txIndex < |s.tx|
  {
    var b := s.tx[s.txIndex];
    s.(txIndex := s.txIndex + 1, bitCount := 7, sda := Top(b), data := Left(b))
  }

  /** TW_ST_DATA_ACK. */
  function SendByte(s: Slave): Slave
    requires s.txIndex < |s.tx|
  {
    Reply(LoadByte(s), s.txIndex + 1 < s.txLength)
  }

  /**
    A clock edge can reach a slave only while it lets the clock go; the one exception is the
    falling edge it makes itself when it reports a stop or a repeated start.
  */
  ghost predicate CanHearClock(s: Slave, scl: bool) {
    s.scl || (!scl && (s.phase.Idle? || s.phase.RepStart?))
  }

  /** The driver's representation invariant. */
  ghost predicate Valid(s: Slave) {
    && 0 < |s.rx| == |s.tx| && s.addr % 2 == 0
    && s.rxIndex <= |s.rx| && s.txLength <= |s.tx|
    && (s.scl <==> s.queue.Nothing?)
    && (s.queue.SigTx? ==> s.phase.SlaR? && s.role.Stx? && s.mode.Addressed?
                           && s.sda && s.txIndex == 0 && s.txLength == 0)
    && (s.queue.SigRx? ==> (s.phase.Idle? || s.phase.RepStart?) && s.queue.len <= |s.rx|)
    && (Transmitting(s) && s.queue.Nothing? && s.ack ==> s.txIndex < s.txLength)
    && (Receiving(s) ==> 1 <= s.bitCount <= 8)
    && (Transmitting(s) || s.phase.SlaW? || s.phase.Read? ==> !s.mode.ModeIdle?)
    && (!s.sda ==> s.phase.WaitAck? || s.phase.SlaR? || s.phase.Write? || s.phase.RecAck?)
    && (s.phase.Idle? ==> s.mode.ModeIdle? && !s.armed)
  }

  /** The phases that shift a byte in, one bit on each rising clock edge. */
  predicate Receiving(s: Slave) {
    s.phase.Start? || s.phase.RepStart? || s.phase.SlaW? || s.phase.Read?
  }

  /** The phases of sending a byte and collecting its acknowledgement. */
  predicate Transmitting(s: Slave) {
    s.phase.SlaR? || s.phase.Write? || s.phase.RecAck? || s.phase.ReadAck? || s.phase.RwaitAck?
  }

  // The branches of `onSclChange`.

  function ReceiveBit(s: Slave, sda: bool): Slave {
    s.(bitCount := s.bitCount - 1, data := ShiftIn(s.data, sda),
       phase := if s.bitCount == 1 then SendAck else s.phase)
  }

  /** Clock stretching, with the data line let go. */
  function Hold(s: Slave): Slave {
    s.(scl := false, sda := true)
  }

  /** Whether the address byte in the shift register is this slave's. */
  predicate Matches(s: Slave) {
    s.data - s.data % 2 == s.addr
  }

  predicate WillAck(s: Slave) {
    if s.mode.ModeIdle? then Matches(s) else s.ack
  }

  function DriveAck(s: Slave): Slave {
    s.(sda := s.sda && !WillAck(s), phase := WaitAck)
  }

  function AddressDone(s: Slave): Slave {
    if !Matches(s) then s.(sda := true, phase := WaitStop)
    else TakeRole(Hold(s).(mode := Addressed))
  }

  /** The read/write bit of the address decides between receiver and transmitter. */
  function TakeRole(s: Slave): Slave {
    if s.data % 2 == 0
    then BeginReception(s).(bitCount := 8, phase := SlaW)
    else AskForAnswer(s).(phase := SlaR)
  }

  function ByteDone(s: Slave): Slave
    requires s.rxIndex <= |s.rx|
  {
    var held := Hold(s);
    if s.ack
    then TakeByte(held).(bitCount := 8, phase := Read)
    else Reply(held, false).(mode := Waiting, phase := WaitStop)
  }

  function SendBit(s: Slave): Slave {
    s.(bitCount := s.bitCount - 1, sda := Top(s.data), data := Left(s.data),
       phase := if s.bitCount == 1 then RecAck else s.phase)
  }

  function AnswerDone(s: Slave): Slave
    requires s.ack ==> s.txIndex < |s.tx|
  {
    if s.ack && s.ackRec
    then SendByte(s.(scl := false)).(phase := Write)
    else Release(s.(scl := false)).(mode := Waiting, phase := WaitStop)
  }

  /** `onSclChange`, entered with the line levels sda and scl. */
  function OnScl(s: Slave, sda: bool, scl: bool): Slave
    requires Valid(s) && CanHearClock(s, scl)
  {
    match s.phase
    case Start => if scl then ReceiveBit(s, sda) else s
    case RepStart => if scl then ReceiveBit(s, sda) else s
    case SlaW => if scl then ReceiveBit(s, sda) else s
    case Read => if scl then ReceiveBit(s, sda) else s
    case SendAck => if scl then s else DriveAck(s)
    case WaitAck => if scl then s else if s.mode.ModeIdle? then AddressDone(s) else ByteDone(s)
    case SlaR => if scl then s else SendBit(s)
    case Write => if scl then s else SendBit(s)
    case RecAck => if scl then s else s.(sda := true, phase := ReadAck)
    case ReadAck => if scl then s.(ackRec := !sda, phase := RwaitAck) else s
    case RwaitAck => if scl then s else AnswerDone(s)
    case Idle => s
    case WaitStop => s
    case BusErr => s
  }

  // The branches of `onSdaChange` while the clock is high.

  function BeginMessage(s: Slave): Slave {
    s.(bitCount := 8, phase := Start, armed := true)
  }

  function BusError(s: Slave): Slave {
    s.(sda := true, mode := Waiting, phase := BusErr)
  }

  function Ended(s: Slave): Slave {
    s.(armed := false, phase := Idle, mode := ModeIdle)
  }

  function EndOrRestart(s: Slave, sda: bool): Slave {
    if sda then Ended(s).(scl := true)
    else if s.phase.BusErr? then s
    else s.(bitCount := 8, phase := RepStart, armed := true)
  }

  function EndOfMessage(s: Slave, sda: bool): Slave
    requires s.rxIndex <= |s.rx|
  {
    var held := EndReception(s.(scl := false));
    if sda then Ended(held)
    else held.(bitCount := 8, armed := true, phase := RepStart, mode := ModeIdle)
  }

  /** `onSdaChange`, entered with the line levels sda and scl. */
  function OnSda(s: Slave, sda: bool, scl: bool): Slave
    requires scl ==> Valid(s) && s.scl
  {
    if !scl then s
    else match s.phase
      case Idle => if sda then s else BeginMessage(s)
      case WaitStop => EndOrRestart(s, sda)
      case BusErr => EndOrRestart(s, sda)
      case SlaW => if s.bitCount == 7 then EndOfMessage(s, sda) else BusError(s)
      case Read => if s.bitCount == 7 then EndOfMessage(s, sda) else BusError(s)
      case _ => BusError(s)
  }

  /** `transmit`, as the transmit callback uses it: refused when too long or not a transmitter. */
  function Transmit(s: Slave, bytes: seq<byte>): Slave
    requires |bytes| > |s.tx| || |s.tx| > 0
  {
    if |bytes| > |s.tx| || !s.role.Stx? then s
    else s.(tx := bytes + s.tx[|bytes|..], txLength := |bytes|)
  }

  /** The transmit buffer never stays empty: one zero byte stands in for no answer. */
  function AtLeastOneByte(s: Slave): Slave
    requires |s.tx| > 0
  {
    if s.txLength == 0 then s.(txLength := 1, tx := s.tx[0 := 0]) else s
  }

  /** The first half of a transmit task: the callback, then the first bit goes on SDA. */
  function LoadFirst(s: Slave): Slave
    requires Valid(s) && s.queue.SigTx?
  {
    LoadByte(AtLeastOneByte(Transmit(s.(queue := Nothing), s.supply)))
  }

  /** What the receive callback is given. */
  function Deliver(s: Slave, n: nat): Slave
    requires n <= |s.rx|
  {
    s.(received := s.received + [s.rx[..n]])
  }

  /** `eventTask` for the posted signal. */
  function Task(s: Slave): Slave
    requires Valid(s) && !s.queue.Nothing?
  {
    match s.queue
    case SigTx =>
      var loaded := LoadFirst(s);
      Reply(loaded, loaded.txIndex < loaded.txLength)
    case SigRx(n) => Deliver(Release(s.(queue := Nothing)), n)
    case Nothing => s
  }

  // ---------------------------------------------------------------- the invariant holds over all traffic

  lemma ReceiveBitKeepsValid(s: Slave, sda: bool)
    requires Valid(s) && s.scl && Receiving(s)
    ensures Valid(ReceiveBit(s, sda))
  {
  }

  lemma DriveAckKeepsValid(s: Slave)
    requires Valid(s) && s.scl && s.phase.SendAck?
    ensures Valid(DriveAck(s))
  {
  }

  lemma AddressDoneKeepsValid(s: Slave)
    requires Valid(s) && s.scl && s.phase.WaitAck?
    ensures Valid(AddressDone(s))
  {
    assert !Matches(s) ==> AddressDone(s) == s.(sda := true, phase := WaitStop);
  }

  lemma ByteDoneKeepsValid(s: Slave)
    requires Valid(s) && s.scl && s.phase.WaitAck? && !s.mode.ModeIdle?
    ensures Valid(ByteDone(s))
  {
  }

  lemma SendBitKeepsValid(s: Slave)
    requires Valid(s) && s.scl && (s.phase.SlaR? || s.phase.Write?)
    ensures Valid(SendBit(s))
  {
  }

  lemma AnswerDoneKeepsValid(s: Slave)
    requires Valid(s) && s.scl && s.phase.RwaitAck?
    ensures Valid(AnswerDone(s))
  {
  }

  /** Whatever edges a bus master makes, a clock interrupt keeps the invariant. */
  lemma OnSclKeepsValid(s: Slave, sda: bool, scl: bool)
    requires Valid(s) && CanHearClock(s, scl)
    ensures Valid(OnScl(s, sda, scl))
  {
    if s.scl {
      if Receiving(s) {
        ReceiveBitKeepsValid(s, sda);
      } else if s.phase.SendAck? {
        DriveAckKeepsValid(s);
      } else if s.phase.WaitAck? {
        AddressDoneKeepsValid(s);
        if !s.mode.ModeIdle? {
          ByteDoneKeepsValid(s);
        }
      } else if s.phase.SlaR? || s.phase.Write? {
        SendBitKeepsValid(s);
      } else if s.phase.RwaitAck? {
        AnswerDoneKeepsValid(s);
      }
    }
  }

  lemma EndOfMessageKeepsValid(s: Slave, sda: bool)
    requires Valid(s) && s.scl && (s.phase.SlaW? || s.phase.Read?)
    ensures Valid(EndOfMessage(s, sda))
  {
  }

  lemma EndOrRestartKeepsValid(s: Slave, sda: bool)
    requires Valid(s) && s.scl && (s.phase.WaitStop? || s.phase.BusErr?)
    ensures Valid(EndOrRestart(s, sda))
  {
  }

  lemma BusErrorKeepsValid(s: Slave)
    requires Valid(s) && s.scl
    ensures Valid(BusError(s))
  {
  }

  /** So does a data line interrupt: a START or STOP at any moment. */
  lemma OnSdaKeepsValid(s: Slave, sda: bool, scl: bool)
    requires Valid(s) && (scl ==> s.scl)
    ensures Valid(OnSda(s, sda, scl))
  {
    if scl {
      BusErrorKeepsValid(s);
      if s.phase.SlaW? || s.phase.Read? {
        EndOfMessageKeepsValid(s, sda);
      } else if s.phase.WaitStop? || s.phase.BusErr? {
        EndOrRestartKeepsValid(s, sda);
      }
    }
  }

  /** The event task keeps it too, and always lets the clock go. */
  lemma TaskKeepsValid(s: Slave)
    requires Valid(s) && !s.queue.Nothing?
    ensures Valid(Task(s)) && Task(s).scl && Task(s).queue.Nothing?
  {
  }

  // ---------------------------------------------------------------- the driver object

  /** The slave side of `Twi`; each method changes the fields in the order the driver does. */
  class Twi {
    const ownAddress: byte
    var rxBuffer: seq<byte>
    var txBuffer: seq<byte>
    var supply: seq<byte>
    var state: Phase
    var mode: Mode
    var bitCount: int
    var data: byte
    var ack: bool
    var ackRec: bool
    var role: Role
    var rxIndex: nat
    var txIndex: nat
    var txLength: nat
    var sda: bool
    var scl: bool
    var queue: Pending
    var armed: bool
    var received: seq<seq<byte>>

    /** The register state the fields stand for. */
    ghost function View(): Slave
      reads this
    {
      Slave(ownAddress, supply, state, mode, bitCount, data, ack, ackRec, role,
            rxBuffer, rxIndex, txBuffer, txIndex, txLength, sda, scl, queue, armed, received)
    }

    constructor (address: byte, capacity: nat, answer: seq<byte>)
      requires capacity > 0
      ensures fresh(this)
      ensures Valid(View()) && View().phase.Idle? && View().queue.Nothing? && View().received == []
      ensures View().addr == Left(address) && View().supply == answer && |View().rx| == capacity
    {
      ownAddress := Left(address);
      rxBuffer := seq(capacity, _ => 0);
      txBuffer := seq(capacity, _ => 0);
      supply := answer;
      state, mode, role := Idle, ModeIdle, Ready;
      bitCount, data, ack, ackRec := 0, 0, false, false;
      rxIndex, txIndex, txLength := 0, 0, 0;
      sda, scl, queue, armed, received := true, true, Nothing, false, [];
    }

    method ReplyTo(acknowledge: bool)
      modifies `scl, `ack
      ensures View() == Reply(old(View()), acknowledge)
    {
      scl := true;
      ack := acknowledge;
    }

    method ReleaseBus()
      modifies `scl, `ack, `sda, `role
      ensures View() == Release(old(View()))
    {
      scl := true;
      ack := true;
      sda := true;
      role := Ready;
    }

    method PostEvent(sig: Pending)
      modifies `queue
      ensures View() == Post(old(View()), sig)
    {
      if queue.Nothing? {
        queue := sig;
      }
    }

    /** The cases of `onTwipEvent` that do more than reply or release. */
    method BeginReceptionEvent()
      modifies `role, `rxIndex, `scl, `ack
      ensures View() == BeginReception(old(View()))
    {
      role := Srx;
      rxIndex := 0;
      ReplyTo(true);
    }

    method TakeByteEvent()
      requires rxIndex <= |rxBuffer|
      modifies `rxIndex, `scl, `ack, `rxBuffer
      ensures View() == TakeByte(old(View()))
    {
      if rxIndex < |rxBuffer| {
        rxBuffer := rxBuffer[rxIndex := data];
        rxIndex := rxIndex + 1;
        ReplyTo(true);
      } else {
        ReplyTo(false);
      }
    }

    method EndReceptionEvent()
      requires rxIndex <= |rxBuffer|
      modifies `rxIndex, `queue, `rxBuffer
      ensures View() == EndReception(old(View()))
    {
      if rxIndex < |rxBuffer| {
        rxBuffer := rxBuffer[rxIndex := 0];
      }
      PostEvent(SigRx(rxIndex));
      rxIndex := 0;
    }

    method AskForAnswerEvent()
      modifies `role, `txIndex, `txLength, `queue
      ensures View() == AskForAnswer(old(View()))
    {
      role := Stx;
      txIndex := 0;
      txLength := 0;
      PostEvent(SigTx);
    }

    method LoadNextByte()
      requires txIndex < |txBuffer|
      modifies `data, `txIndex, `bitCount, `sda
      ensures View() == LoadByte(old(View()))
    {
      data := txBuffer[txIndex];
      txIndex := txIndex + 1;
      bitCount := 8;
      bitCount := bitCount - 1;
      sda := Top(data);
      data := Left(data);
    }

    method SendByteEvent()
      requires txIndex < |txBuffer|
      modifies `data, `txIndex, `bitCount, `sda, `scl, `ack
      ensures View() == SendByte(old(View()))
    {
      LoadNextByte();
      if txIndex < txLength {
        ReplyTo(true);
      } else {
        ReplyTo(false);
      }
    }

    method OnSclChange(sdaLine: bool, sclLine: bool)
      requires Valid(View()) && CanHearClock(View(), sclLine)
      modifies this
      ensures View() == OnScl(old(View()), sdaLine, sclLine)
    {
      if state.Start? || state.RepStart? || state.SlaW? || state.Read? {
        if sclLine {
          OnBitArrived(sdaLine);
        }
      } else if state.SendAck? {
        if !sclLine {
          OnAckDue();
        }
      } else if state.WaitAck? {
        if !sclLine {
          if mode.ModeIdle? {
            OnAddressDone();
          } else {
            OnByteDone();
          }
        }
      } else if state.SlaR? || state.Write? {
        if !sclLine {
          OnBitDue();
        }
      } else if state.RecAck? {
        if !sclLine {
          sda := true;
          state := ReadAck;
        }
      } else if state.ReadAck? {
        if sclLine {
          ackRec := !sdaLine;
          state := RwaitAck;
        }
      } else if state.RwaitAck? {
        if !sclLine {
          OnAnswerDone();
        }
      }
    }

    method OnBitArrived(sdaLine: bool)
      modifies `bitCount, `data, `state
      ensures View() == ReceiveBit(old(View()), sdaLine)
    {
      bitCount := bitCount - 1;
      data := ShiftIn(data, sdaLine);
      if bitCount == 0 {
        state := SendAck;
      }
    }

    method OnAckDue()
      modifies `sda, `state
      ensures View() == DriveAck(old(View()))
    {
      if mode.ModeIdle? {
        if data - data % 2 == ownAddress {
          sda := false;
        }
      } else if ack {
        sda := false;
      }
      state := WaitAck;
    }

    method OnAddressDone()
      modifies this
      ensures View() == AddressDone(old(View()))
    {
      if data - data % 2 != ownAddress {
        sda := true;
        state := WaitStop;
      } else {
        HoldClock();
        mode := Addressed;
        EnterRole();
      }
    }

    method EnterRole()
      modifies this
      ensures View() == TakeRole(old(View()))
    {
      if data % 2 == 0 {
        BeginReceptionEvent();
        NextByteIn(SlaW);
      } else {
        AskForAnswerEvent();
        state := SlaR;
      }
    }

    /** Clock stretching, with the data line let go. */
    method HoldClock()
      modifies `scl, `sda
      ensures View() == Hold(old(View()))
    {
      scl := false;
      sda := true;
    }

    method NextByteIn(next: Phase)
      modifies `bitCount, `state
      ensures View() == old(View()).(bitCount := 8, phase := next)
    {
      bitCount := 8;
      state := next;
    }

    method OnByteDone()
      requires rxIndex <= |rxBuffer|
      modifies this
      ensures View() == ByteDone(old(View()))
    {
      HoldClock();
      if !ack {
        ReplyTo(false);
        AwaitStop();
      } else {
        TakeByteEvent();
        NextByteIn(Read);
      }
    }

    method AwaitStop()
      modifies `mode, `state
      ensures View() == old(View()).(mode := Waiting, phase := WaitStop)
    {
      mode := Waiting;
      state := WaitStop;
    }

    method OnBitDue()
      modifies `bitCount, `sda, `data, `state
      ensures View() == SendBit(old(View()))
    {
      bitCount := bitCount - 1;
      sda := Top(data);
      data := Left(data);
      if bitCount == 0 {
        state := RecAck;
      }
    }

    method OnAnswerDone()
      requires ack ==> txIndex < |txBuffer|
      modifies this
      ensures View() == AnswerDone(old(View()))
    {
      scl := false;
      if ack && ackRec {
        SendByteEvent();
        state := Write;
      } else {
        ReleaseBus();
        AwaitStop();
      }
    }

    method OnSdaChange(sdaLine: bool, sclLine: bool)
      requires sclLine ==> Valid(View()) && scl
      modifies this
      ensures View() == OnSda(old(View()), sdaLine, sclLine)
    {
      if sclLine {
        if state.Idle? {
          if !sdaLine {
            WakeUp();
          }
        } else if state.WaitStop? || state.BusErr? {
          OnStopOrRestart(sdaLine);
        } else if (state.SlaW? || state.Read?) && bitCount == 7 {
          OnEndOfMessage(sdaLine);
        } else {
          FailBus();
        }
      }
    }

    method WakeUp()
      modifies `bitCount, `state, `armed
      ensures View() == BeginMessage(old(View()))
    {
      bitCount := 8;
      state := Start;
      armed := true;
    }

    method FailBus()
      modifies `sda, `mode, `state
      ensures View() == BusError(old(View()))
    {
      sda := true;
      mode := Waiting;
      state := BusErr;
    }

    method OnStopOrRestart(sdaLine: bool)
      requires scl
      modifies `scl, `armed, `state, `mode, `bitCount
      ensures View() == EndOrRestart(old(View()), sdaLine)
    {
      if sdaLine {
        scl := false;
        EndSession();
        scl := true;
      } else if !state.BusErr? {
        bitCount := 8;
        state := RepStart;
        armed := true;
      }
    }

    method OnEndOfMessage(sdaLine: bool)
      requires rxIndex <= |rxBuffer|
      modifies this
      ensures View() == EndOfMessage(old(View()), sdaLine)
    {
      scl := false;
      EndReceptionEvent();
      if sdaLine {
        EndSession();
      } else {
        RestartSession();
      }
    }

    method RestartSession()
      modifies `bitCount, `armed, `state, `mode
      ensures View() == old(View()).(bitCount := 8, armed := true, phase := RepStart, mode := ModeIdle)
    {
      bitCount := 8;
      armed := true;
      state := RepStart;
      mode := ModeIdle;
    }

    method EndSession()
      modifies `armed, `state, `mode
      ensures View() == Ended(old(View()))
    {
      armed := false;
      state := Idle;
      mode := ModeIdle;
    }

    /** `transmit`: copies the callback's bytes, or refuses with 1 or 2. */
    method TransmitBytes(bytes: seq<byte>) returns (result: nat)
      requires |txBuffer| > 0
      modifies `txLength, `txBuffer
      ensures View() == Transmit(old(View()), bytes)
      ensures result == if |bytes| > |txBuffer| then 1 else if !role.Stx? then 2 else 0
    {
      if |bytes| > |txBuffer| {
        return 1;
      }
      if !role.Stx? {
        return 2;
      }
      txLength := |bytes|;
      ghost var before := txBuffer[..];
      for i := 0 to |bytes|
        modifies `txBuffer
        invariant |txBuffer| == |before|
        invariant txBuffer[..i] == bytes[..i] && txBuffer[i..] == before[i..]
      {
        txBuffer := txBuffer[i := bytes[i]];
      }
      assert txBuffer[..] == txBuffer[..|bytes|] + txBuffer[|bytes|..];
      result := 0;
    }

    /** `eventTask` for a transmit event, up to the moment the first bit of the answer is on SDA. */
    method BeginAnswer()
      requires Valid(View()) && queue.SigTx?
      modifies this
      ensures View() == LoadFirst(old(View()))
    {
      queue := Nothing;
      var _ := TransmitBytes(supply);
      EnsureByte();
      LoadNextByte();
    }

    method EnsureByte()
      requires |txBuffer| > 0
      modifies `txLength, `txBuffer
      ensures View() == AtLeastOneByte(old(View()))
    {
      if txLength == 0 {
        txLength := 1;
        txBuffer := txBuffer[0 := 0];
      }
    }

    /** `eventTask` for a receive event, up to the callback. */
    method BeginDelivery()
      modifies `queue, `scl, `ack, `sda, `role
      ensures View() == Release(old(View()).(queue := Nothing))
    {
      queue := Nothing;
      ReleaseBus();
    }

    method DeliverMessage(n: nat)
      requires n <= |rxBuffer|
      modifies `received
      ensures View() == Deliver(old(View()), n)
    {
      received := received + [rxBuffer[..n]];
    }
  }
}
