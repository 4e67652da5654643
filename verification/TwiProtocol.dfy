/**
  The slave seen one clock cycle, one byte and one transaction at a time.

  A clock cycle is a falling edge, the event task if the slave stretches the clock, and a
  rising edge.  Everything the bus master does is a sequence of such cycles between a START
  and a STOP; the lemmas say what they leave in the slave.
*/
module TwiProtocol {
  import opened Words
  import opened TwiSlave

  // ---------------------------------------------------------------- cycles

  function Fall(s: Slave): (f: Slave)
    requires Valid(s) && s.scl
    ensures Valid(f) && f == OnScl(s, false, false)
  {
    OnSclKeepsValid(s, true, false);
    OnScl(s, true, false)
  }

  function Rise(s: Slave, sda: bool): (r: Slave)
    requires Valid(s) && s.scl
    ensures Valid(r)
  {
    OnSclKeepsValid(s, sda, true);
    OnScl(s, sda, true)
  }

  /** The slave once the event task has served what is queued. */
  function Drain(s: Slave): (d: Slave)
    requires Valid(s)
    ensures Valid(d) && d.scl && d.queue.Nothing?
  {
    if s.queue.Nothing? then s else TaskKeepsValid(s); Task(s)
  }

  /** The slave while the clock is low, ready for the rising edge. */
  function Low(s: Slave): (n: Slave)
    requires Valid(s) && s.scl
    ensures Valid(n) && n.scl && n.queue.Nothing?
  {
    Drain(Fall(s))
  }

  /** A whole cycle in which the master's driver puts v on SDA. */
  function Cycle(s: Slave, v: bool): (c: Slave)
    requires Valid(s) && s.scl
    ensures Valid(c) && c.scl && c.queue.Nothing?
  {
    RiseKeepsPins(Low(s), v && Low(s).sda);
    Rise(Low(s), v && Low(s).sda)
  }

  lemma RiseKeepsPins(s: Slave, sda: bool)
    requires Valid(s) && s.scl
    ensures var r := Rise(s, sda);
            r.sda == s.sda && r.scl == s.scl && r.queue == s.queue && r.received == s.received
  {
    assert Rise(s, sda) == s || Rise(s, sda) == ReceiveBit(s, sda)
        || Rise(s, sda) == s.(ackRec := !sda, phase := RwaitAck);
  }

  // ---------------------------------------------------------------- bits of a byte on the wire

  /** A shift register after k bits have been pushed out at the top. */
  function Sent(b: byte, k: nat): byte {
    if k == 0 then b else Left(Sent(b, k - 1))
  }

  /** A shift register d after taking the first k bits of b, top bit first. */
  function Taken(d: byte, b: byte, k: nat): byte {
    if k == 0 then d else ShiftIn(Taken(d, b, k - 1), Top(Sent(b, k - 1)))
  }

  function Doubled(w: int, k: nat): int {
    if k == 0 then w else 2 * Doubled(w, k - 1)
  }

  /** The two registers together rotate like one 16-bit register; lost counts what fell off its top. */
  lemma {:induction false} PairShifts(d: byte, b: byte, k: nat) returns (lost: int)
    ensures 256 * (Taken(d, b, k) as int) + Sent(b, k) == Doubled(256 * (d as int) + b, k) - 65536 * lost
  {
    if k == 0 {
      lost := 0;
    } else {
      var before := PairShifts(d, b, k - 1);
      lost := 2 * before + if Top(Taken(d, b, k - 1)) then 1 else 0;
    }
  }

  lemma EightDoublings(w: int, k: nat)
    requires k == 8
    ensures Doubled(w, k) == 256 * w
  {
    assert Doubled(w, k - 6) == 4 * w by { assert Doubled(w, k - 7) == 2 * w; }
    assert Doubled(w, k - 4) == 16 * w;
    assert Doubled(w, k - 2) == 64 * w;
  }

  /** Eight bits carry a byte across, whatever was in the receiving register. */
  lemma EightBits(d: byte, b: byte, k: nat)
    requires k == 8
    ensures Taken(d, b, k) == b && Sent(b, k) == 0
  {
    var lost := PairShifts(d, b, k);
    EightDoublings(256 * (d as int) + b, k);
    OnlyDigits(Taken(d, b, k), Sent(b, k), b, d - lost);
  }

  lemma OnlyDigits(t: int, s: int, b: int, x: int)
    requires 0 <= t < 256 && 0 <= s < 256 && 0 <= b < 256
    requires 256 * t + s == 256 * b + 65536 * x
    ensures t == b && s == 0
  {
    assert x == 0;
  }

  // ---------------------------------------------------------------- bytes to the slave

  /** Ready for the first bit of a byte. */
  ghost predicate ReadyForByte(r: Slave) {
    Valid(r) && r.scl && Receiving(r) && r.bitCount == 8
  }

  /** A receiving slave r after the first k bits of b. */
  function AfterBits(r: Slave, b: byte, k: nat): Slave
    requires k <= 8
  {
    r.(bitCount := 8 - k, data := Taken(r.data, b, k), phase := if k == 8 then SendAck else r.phase)
  }

  lemma AfterBitsValid(r: Slave, b: byte, k: nat)
    requires ReadyForByte(r) && k <= 8
    ensures Valid(AfterBits(r, b, k)) && AfterBits(r, b, k).scl
  {
  }

  lemma OneMoreBit(r: Slave, b: byte, k: nat)
    requires ReadyForByte(r) && k < 8
    ensures Valid(AfterBits(r, b, k)) && AfterBits(r, b, k).scl
    ensures Cycle(AfterBits(r, b, k), Top(Sent(b, k))) == AfterBits(r, b, k + 1)
  {
    AfterBitsValid(r, b, k);
    var s := AfterBits(r, b, k);
    assert Low(s) == s;
    assert Cycle(s, Top(Sent(b, k))) == ReceiveBit(s, Top(Sent(b, k)));
  }

  /** The first bit of a byte, sent to a slave that still has to finish the previous one. */
  lemma FirstBit(s: Slave, b: byte)
    requires Valid(s) && s.scl && ReadyForByte(Fall(s))
    ensures Cycle(s, Top(b)) == AfterBits(Fall(s), b, 1)
  {
    var r := Fall(s);
    assert Low(s) == r;
    assert Cycle(s, Top(b)) == ReceiveBit(r, Top(b));
    assert Taken(r.data, b, 1) == ShiftIn(r.data, Top(b));
  }

  /** Whether a slave that has received b acknowledges it. */
  predicate Acks(r: Slave, b: byte) {
    if r.mode.ModeIdle? then b - b % 2 == r.addr else r.ack
  }

  /** A slave after a whole byte and its acknowledge cycle. */
  function AfterByte(r: Slave, b: byte): Slave {
    r.(bitCount := 0, data := b, phase := WaitAck, sda := r.sda && !Acks(r, b))
  }

  lemma AckCycle(r: Slave, b: byte)
    requires ReadyForByte(r)
    ensures Valid(AfterBits(r, b, 8)) && AfterBits(r, b, 8).scl
    ensures Low(AfterBits(r, b, 8)) == AfterByte(r, b)
    ensures Cycle(AfterBits(r, b, 8), true) == AfterByte(r, b)
    ensures Valid(AfterByte(r, b))
  {
    AfterBitsValid(r, b, 8);
    EightBits(r.data, b, 8);
    var s := AfterBits(r, b, 8);
    assert Fall(s) == DriveAck(s) == AfterByte(r, b);
    assert Low(s) == Fall(s);
  }

  // ---------------------------------------------------------------- a message to the slave

  /** A slave ready for byte number n of a message, after the n bytes before it were acknowledged. */
  ghost predicate Collected(r: Slave, message: seq<byte>, n: nat, before: seq<seq<byte>>)
    requires n <= |message|
  {
    var kept := Min(n, |r.rx|);
    && ReadyForByte(r) && (r.phase.SlaW? || r.phase.Read?) && r.mode.Addressed?
    && r.rxIndex == kept && r.rx[..kept] == message[..kept]
    && n <= |r.rx| + 1 && (r.ack <==> n <= |r.rx|)
    && r.received == before && r.queue.Nothing?
  }

  /** The slave after the address byte of a write to it. */
  lemma AddressedForWriting(r: Slave, b: byte, message: seq<byte>)
    requires ReadyForByte(r) && r.phase.Start? && r.mode.ModeIdle? && r.queue.Nothing? && b == r.addr
    ensures Acks(r, b) && Valid(AfterByte(r, b))
    ensures Collected(Fall(AfterByte(r, b)), message, 0, r.received)
    ensures |Fall(AfterByte(r, b)).rx| == |r.rx| && SameIdentity(Fall(AfterByte(r, b)), r)
  {
    AckCycle(r, b);
    var s := AfterByte(r, b);
    assert Fall(s) == AddressDone(s);
  }

  ghost predicate SameIdentity(s: Slave, t: Slave) {
    s.addr == t.addr && s.supply == t.supply && |s.rx| == |t.rx|
  }

  /** A data byte is acknowledged while the bytes before it fit the buffer, and then it is counted. */
  lemma ByteCollected(r: Slave, message: seq<byte>, n: nat, before: seq<seq<byte>>)
    requires n < |message| && n <= |r.rx|
    requires Collected(r, message, n, before)
    ensures Acks(r, message[n]) && Valid(AfterByte(r, message[n]))
    ensures Collected(Fall(AfterByte(r, message[n])), message, n + 1, before)
    ensures SameIdentity(Fall(AfterByte(r, message[n])), r)
  {
    AckCycle(r, message[n]);
    var s := AfterByte(r, message[n]);
    assert Fall(s) == ByteDone(s);
    var kept := Min(n, |r.rx|);
    if n < |r.rx| {
      assert Fall(s).rx == r.rx[n := message[n]];
      assert Fall(s).rx[..n + 1] == r.rx[..n] + [message[n]] == message[..n + 1];
    }
  }

  /** The byte after the first one that did not fit is refused, and the slave waits for the STOP. */
  lemma ByteRefused(r: Slave, message: seq<byte>, n: nat, before: seq<seq<byte>>)
    requires n < |message| && n == |r.rx| + 1
    requires Collected(r, message, n, before)
    ensures !Acks(r, message[n]) && Valid(AfterByte(r, message[n]))
    ensures var w := Fall(AfterByte(r, message[n]));
            w.phase.WaitStop? && w.received == before && w.scl && w.sda && w.queue.Nothing?
            && SameIdentity(w, r)
  {
    AckCycle(r, message[n]);
    var s := AfterByte(r, message[n]);
    assert Fall(s) == ByteDone(s);
  }

  /** An address byte that is not this slave's is not acknowledged, and the slave waits for the STOP. */
  lemma NotAddressed(r: Slave, b: byte)
    requires ReadyForByte(r) && r.phase.Start? && r.mode.ModeIdle? && r.queue.Nothing? && b - b % 2 != r.addr
    ensures !Acks(r, b) && Valid(AfterByte(r, b))
    ensures var w := Fall(AfterByte(r, b));
            w.phase.WaitStop? && w.received == r.received && w.scl && w.sda && w.queue.Nothing?
            && SameIdentity(w, r)
  {
    AckCycle(r, b);
    var s := AfterByte(r, b);
    assert Fall(s) == AddressDone(s);
  }

  // ---------------------------------------------------------------- STOP

  /** A slave between transactions: idle, data line released, perhaps a message still to deliver. */
  ghost predicate Quiet(s: Slave) {
    Valid(s) && s.phase.Idle? && !s.queue.SigTx?
  }

  /** The slave after a clock cycle with SDA low whose high phase ends in a STOP. */
  function AfterStop(s: Slave): (e: Slave)
    requires Valid(s) && s.scl
    ensures Valid(e)
  {
    OnSdaKeepsValid(Cycle(s, false), true, true);
    OnSda(Cycle(s, false), true, true)
  }

  /** A STOP hands the collected bytes, and only those, to the event task. */
  lemma StopAfterMessage(s: Slave, message: seq<byte>, n: nat, before: seq<seq<byte>>)
    requires n <= |message|
    requires Valid(s) && s.scl && Collected(Fall(s), message, n, before)
    ensures var e := AfterStop(s);
            && Quiet(e) && e.queue == SigRx(Min(n, |e.rx|)) && e.received == before
            && e.rx[..Min(n, |e.rx|)] == message[..Min(n, |e.rx|)]
            && SameIdentity(e, Fall(s))
  {
    var r := Fall(s);
    assert Low(s) == r;
    var high := ReceiveBit(r, false);
    assert Rise(r, false) == high;
    assert AfterStop(s) == EndOfMessage(high, true);
    var kept := Min(n, |r.rx|);
    assert AfterStop(s).rx[..kept] == r.rx[..kept];
  }

  /** A STOP ends the wait of a slave that takes no part, and nothing is posted. */
  lemma StopAfterWait(s: Slave)
    requires Valid(s) && s.scl && Fall(s).phase.WaitStop? && Fall(s).queue.Nothing?
    ensures var e := AfterStop(s);
            Quiet(e) && e.queue.Nothing? && e.received == Fall(s).received && SameIdentity(e, Fall(s))
  {
    assert Low(s) == Fall(s);
    assert AfterStop(s) == EndOrRestart(Fall(s), true);
  }

  // ---------------------------------------------------------------- an idle slave

  /** Clock cycles leave a slave alone that has not seen a START, even while it holds a message. */
  lemma IdleIgnoresClock(s: Slave, v: bool)
    requires Quiet(s) && s.queue.Nothing?
    ensures Low(s) == s && Cycle(s, v) == s && Rise(s, v) == s && AfterStop(s) == s
  {
  }

  lemma DrainIdle(s: Slave)
    requires Quiet(s)
    ensures Quiet(Drain(s)) && SameIdentity(Drain(s), s)
    ensures Delivered(Drain(s)) == Delivered(s) == Drain(s).received
  {
  }

  /** Everything handed to the receive callback, or about to be. */
  function Delivered(s: Slave): seq<seq<byte>>
    requires s.queue.SigRx? ==> s.queue.len <= |s.rx|
  {
    s.received + if s.queue.SigRx? then [s.rx[..s.queue.len]] else []
  }

  /** A START wakes an idle slave that lets the clock go. */
  lemma StartSeen(s: Slave)
    requires Quiet(s) && s.queue.Nothing?
    ensures var r := OnSda(s, false, true);
            && ReadyForByte(r) && r.phase.Start? && r.mode.ModeIdle? && r.queue.Nothing? && Fall(r) == r
            && r.received == s.received && SameIdentity(r, s)
  {
  }

  // ---------------------------------------------------------------- bytes from the slave

  /** What the slave sends when asked: the callback's bytes, or one zero byte. */
  function Answer(s: Slave): (bytes: seq<byte>)
    ensures bytes != []
  {
    if 0 < |s.supply| <= |s.tx| then s.supply else [0]
  }

  /** The byte whose first bit is on SDA and whose other seven are in the shift register. */
  function Shown(n: Slave): byte {
    (n.data + if n.sda then 256 else 0) / 2
  }

  lemma ShownByte(n: Slave, e: byte)
    requires n.data == Left(e) && n.sda == Top(e)
    ensures Shown(n) == e
  {
  }

  /** First bit of a byte on SDA, seven to go. */
  ghost predicate Showing(n: Slave) {
    && Valid(n) && n.scl && n.queue.Nothing? && (n.phase.SlaR? || n.phase.Write?)
    && n.bitCount == 7 && n.data == Left(Shown(n)) && n.sda == Top(Shown(n))
  }

  /** A sending slave n once k bits of its byte have been sampled. */
  function AfterSent(n: Slave, k: nat): Slave
    requires 1 <= k <= 8
  {
    n.(bitCount := 8 - k, data := Sent(Shown(n), k), sda := Top(Sent(Shown(n), k - 1)),
       phase := if k == 8 then RecAck else n.phase)
  }

  lemma AfterSentValid(n: Slave, k: nat)
    requires Showing(n) && 1 <= k <= 8
    ensures Valid(AfterSent(n, k)) && AfterSent(n, k).scl
  {
  }

  /** A clock cycle with SDA let go by the master brings the next bit of the byte. */
  lemma NextBitSent(n: Slave, k: nat)
    requires Showing(n) && 1 <= k < 8
    ensures Valid(AfterSent(n, k)) && AfterSent(n, k).scl
    ensures Low(AfterSent(n, k)) == AfterSent(n, k + 1) == Cycle(AfterSent(n, k), true)
  {
    AfterSentValid(n, k);
    AfterSentValid(n, k + 1);
    var s := AfterSent(n, k);
    assert Fall(s) == SendBit(s) == AfterSent(n, k + 1);
  }

  lemma FirstBitSent(s: Slave)
    requires Valid(s) && s.scl && Showing(Low(s))
    ensures Cycle(s, true) == Low(s) == AfterSent(Low(s), 1)
  {
    ShowingIsFirstBit(Low(s), 1);
  }

  lemma ShowingIsFirstBit(n: Slave, k: nat)
    requires Showing(n) && k == 1
    ensures AfterSent(n, k) == n && Rise(n, n.sda) == n
  {
    assert Sent(Shown(n), k) == Left(Sent(Shown(n), k - 1)) == n.data;
  }

  /** A slave that has sent its byte and seen the master's acknowledge bit (true is a NACK). */
  function AfterAnswerByte(n: Slave, nack: bool): Slave {
    n.(bitCount := 0, data := 0, sda := true, ackRec := !nack, phase := RwaitAck)
  }

  lemma AnswerByteSent(n: Slave, nack: bool)
    requires Showing(n)
    ensures Valid(AfterSent(n, 8)) && AfterSent(n, 8).scl
    ensures Cycle(AfterSent(n, 8), nack) == AfterAnswerByte(n, nack)
    ensures Valid(AfterAnswerByte(n, nack)) && AfterAnswerByte(n, nack).scl
  {
    AfterSentValid(n, 8);
    EightBits(0, Shown(n), 8);
    var s := AfterSent(n, 8);
    assert Fall(s) == s.(sda := true, phase := ReadAck);
    assert Low(s) == Fall(s);
  }

  /** The slave shows byte i of its answer. */
  ghost predicate Serving(n: Slave, i: nat, before: seq<seq<byte>>)
    requires i < |Answer(n)|
  {
    var bytes := Answer(n);
    && Showing(n) && Shown(n) == bytes[i]
    && n.role.Stx? && n.mode.Addressed? && n.txIndex == i + 1 && n.txLength == |bytes|
    && |bytes| <= |n.tx| && n.tx[..|bytes|] == bytes
    && (n.ack <==> i + 1 < |bytes|) && n.received == before
  }

  /** The slave takes no part until the STOP. */
  ghost predicate OffTheBus(n: Slave, before: seq<seq<byte>>) {
    Valid(n) && n.phase.WaitStop? && n.scl && n.sda && n.queue.Nothing? && n.received == before
  }

  /** What a master that has read i bytes will find. */
  ghost predicate Reading(s: Slave, i: nat, before: seq<seq<byte>>) {
    && Valid(s) && s.scl
    && var n := Low(s);
       SameIdentity(n, s) && |n.tx| == |s.tx|
       && if i < |Answer(n)| then Serving(n, i, before) else OffTheBus(n, before)
  }

  lemma LoadFirstIs(s: Slave)
    requires Valid(s) && s.queue.SigTx?
    ensures var t := Task(s); var bytes := Answer(s);
            && |t.tx| == |s.tx| && |bytes| <= |s.tx| && t.tx[..|bytes|] == bytes
            && t == s.(queue := Nothing, tx := t.tx, txLength := |bytes|, txIndex := 1, bitCount := 7,
                       sda := Top(bytes[0]), data := Left(bytes[0]), scl := true, ack := 1 < |bytes|)
  {
    if 0 < |s.supply| <= |s.tx| {
      assert (s.supply + s.tx[|s.supply|..])[..|s.supply|] == s.supply;
    } else {
      assert s.tx[0 := 0][..1] == [0];
    }
  }

  /** The slave's own address with a read bit makes it hold the clock and ask for the answer. */
  lemma AddressAnswered(r: Slave, b: byte)
    requires ReadyForByte(r) && r.phase.Start? && r.mode.ModeIdle? && r.queue.Nothing? && b == r.addr + 1
    ensures Acks(r, b) && Valid(AfterByte(r, b)) && AfterByte(r, b).scl
    ensures var f := Fall(AfterByte(r, b));
            && !f.scl && f.queue.SigTx? && f.phase.SlaR? && f.received == r.received
            && SameIdentity(f, r) && SameIdentity(AfterByte(r, b), r)
            && |f.tx| == |AfterByte(r, b).tx| == |r.tx|
  {
    AckCycle(r, b);
    assert Fall(AfterByte(r, b)) == AddressDone(AfterByte(r, b));
  }

  /**
    A slave addressed for reading stretches the clock until the event task has put the first
    byte of the answer on the bus: no clock edge finds it before that.
  */
  lemma AddressedForReading(r: Slave, b: byte)
    requires ReadyForByte(r) && r.phase.Start? && r.mode.ModeIdle? && r.queue.Nothing? && b == r.addr + 1
    ensures Acks(r, b) && Valid(AfterByte(r, b))
    ensures var f := Fall(AfterByte(r, b)); !f.scl && f.queue.SigTx? && f.phase.SlaR?
    ensures Reading(AfterByte(r, b), 0, r.received) && SameIdentity(AfterByte(r, b), r)
    ensures Answer(Low(AfterByte(r, b))) == Answer(r)
  {
    AddressAnswered(r, b);
    hide AfterByte, Acks, ReadyForByte, Fall;
    var s := AfterByte(r, b);
    var f := Fall(s);
    LoadFirstIs(f);
    assert Low(s) == Task(f);
    ShownByte(Low(s), Answer(f)[0]);
  }

  /** After an acknowledged byte the slave shows the next one, or leaves the bus if it has no more. */
  lemma NextAnswerByte(n: Slave, i: nat, before: seq<seq<byte>>)
    requires i < |Answer(n)| && Serving(n, i, before)
    ensures Valid(AfterAnswerByte(n, false)) && AfterAnswerByte(n, false).scl
    ensures Reading(AfterAnswerByte(n, false), i + 1, before)
    ensures Answer(Low(AfterAnswerByte(n, false))) == Answer(n)
  {
    AnswerByteSent(n, false);
    var s := AfterAnswerByte(n, false);
    assert Fall(s) == AnswerDone(s);
    assert Low(s) == Fall(s);
    if i + 1 < |Answer(n)| {
      assert n.tx[i + 1] == Answer(n)[i + 1];
      ShownByte(Low(s), Answer(n)[i + 1]);
    }
  }

  /** After a refused byte the slave leaves the bus. */
  lemma LastAnswerByte(n: Slave)
    requires Showing(n)
    ensures Valid(AfterAnswerByte(n, true)) && AfterAnswerByte(n, true).scl
    ensures OffTheBus(Fall(AfterAnswerByte(n, true)), n.received)
    ensures SameIdentity(Fall(AfterAnswerByte(n, true)), n)
  {
    AnswerByteSent(n, true);
    var s := AfterAnswerByte(n, true);
    assert Fall(s) == AnswerDone(s);
  }

  /** A slave off the bus leaves SDA alone, so the master reads ones. */
  lemma OffTheBusIgnoresClock(s: Slave, v: bool)
    requires Valid(s) && s.scl && Low(s).phase.WaitStop?
    ensures Cycle(s, v) == Low(s) == Low(Low(s)) == Fall(Low(s)) == Cycle(Low(s), v)
    ensures Low(s).sda
  {
  }

  lemma AllOnes(k: nat)
    requires k < 8
    ensures Top(Sent(255, k))
  {
    OnesLeft(k);
    Pow2Grows(k, 7);
    Powers();
    assert Pow2(8) == 2 * Pow2(7);
  }

  lemma {:induction false} OnesLeft(k: nat)
    requires k <= 8
    ensures Sent(255, k) == 256 - Pow2(k)
    decreases k
  {
    Powers();
    if k > 0 {
      OnesLeft(k - 1);
      Pow2Grows(k - 1, 7);
    }
  }

  lemma {:induction false} Pow2Grows(k: nat, n: nat)
    requires k <= n
    ensures Pow2(k) <= Pow2(n)
    decreases n
  {
    if k < n {
      Pow2Grows(k, n - 1);
    }
  }
}
