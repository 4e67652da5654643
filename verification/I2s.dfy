/**
  The I2S transmitter: eight buffers that the DMA engine plays in turn for ever, and a queue of
  those it has finished, from which the application takes buffers to fill.
*/
module I2s {
  import opened Words

  const SLC_BUF_CNT: nat := 8
  const SLC_BUF_LEN: nat := 64

  /** A run so far.  Plays are numbered from 0; play n is of buffer n % 8. */
  datatype Run = Run(
    buffers: seq<seq<u32>>, // what the buffers hold
    finished: nat,          // the number of plays finished
    waiting: nat,           // the length of the queue
    popped: seq<nat>,       // the plays whose buffers were taken from the queue
    stream: seq<u32>,       // the samples accepted
    played: seq<seq<u32>>,  // the contents of the buffers as their plays finished
    dropped: nat,           // how many buffers were pushed out of the full queue
    late: bool)             // whether a sample was written to a buffer that was no longer ahead of its play

  /** The buffer of play n. */
  function Slot(n: int): (b: nat)
    ensures b < 8
  {
    n % 8
  }

  function Silence(n: nat): (s: seq<u32>)
    ensures |s| == n
  {
    seq(n, _ => 0)
  }

  /** The samples that went to the k-th buffer taken, with silence up to its end. */
  function Block(stream: seq<u32>, k: nat): (b: seq<u32>)
    requires 64 * k <= |stream|
    ensures |b| == 64
  {
    if |stream| >= 64 * k + 64 then stream[64 * k..64 * k + 64]
    else stream[64 * k..] + Silence(64 * k + 64 - |stream|)
  }

  predicate Increasing(s: seq<nat>) {
    forall i, j :: 0 <= i < j < |s| ==> s[i] < s[j]
  }

  /** How many samples of the buffer in use are written. */
  function Position(r: Run): int {
    |r.stream| - 64 * (|r.popped| - 1)
  }

  predicate Counted(r: Run) {
    && r.waiting <= 7 && r.dropped + |r.popped| + r.waiting == r.finished == |r.played|
    && Increasing(r.popped)
    && (forall k :: 0 <= k < |r.popped| ==> r.popped[k] < r.finished - r.waiting)
    && (r.dropped == 0 ==> forall k :: 0 <= k < |r.popped| ==> r.popped[k] == k)
    && (if r.popped == [] then r.stream == [] else 0 <= Position(r) <= 64)
    && |r.buffers| == 8 && (forall b :: 0 <= b < 8 ==> |r.buffers[b]| == 64)
  }

  /** What the play after play n of the same buffer plays: what the buffer holds until that play has finished. */
  function PlayAfter(r: Run, n: int): (b: seq<u32>)
    requires Counted(r) && -8 <= n < r.finished
  {
    if n + 8 < r.finished then r.played[n + 8] else r.buffers[Slot(n)]
  }

  /** As long as no sample was late, every play is of the block written since the last play of the buffer, or silent. */
  ghost predicate InTime(r: Run)
    requires Counted(r)
  {
    && (forall k :: 0 <= k < |r.popped| ==> PlayAfter(r, r.popped[k]) == Block(r.stream, k))
    && (forall n :: -8 <= n < r.finished && n !in r.popped ==> PlayAfter(r, n) == Silence(64))
  }

  ghost predicate Consistent(r: Run) {
    Counted(r) && (!r.late ==> InTime(r))
  }

  /** A play finishes: the buffer is silenced and queued; a full queue loses its oldest buffer. */
  function Finish(r: Run): Run
    requires |r.buffers| == 8
  {
    var b := Slot(r.finished);
    var full := r.waiting >= 7;
    r.(buffers := r.buffers[b := Silence(64)], finished := r.finished + 1, played := r.played + [r.buffers[b]],
       waiting := if full then r.waiting else r.waiting + 1, dropped := if full then r.dropped + 1 else r.dropped)
  }

  /** The oldest buffer in the queue is taken. */
  function Pop(r: Run): Run
    requires 0 < r.waiting <= r.finished
  {
    r.(waiting := r.waiting - 1, popped := r.popped + [r.finished - r.waiting])
  }

  /** A sample is written to the buffer taken last. */
  function PutSample(r: Run, sample: u32): Run
    requires |r.buffers| == 8 && r.popped != [] && 0 <= Position(r) < |r.buffers[Slot(r.popped[|r.popped| - 1])]|
  {
    var n := r.popped[|r.popped| - 1];
    var b := Slot(n);
    var filled: seq<u32> := r.buffers[b][Position(r) := sample];
    r.(buffers := r.buffers[b := filled], stream := r.stream + [sample],
       late := r.late || n + 8 <= r.finished)
  }

  lemma FinishCounted(r: Run)
    requires Counted(r)
    ensures Counted(Finish(r))
  {
  }

  /** Buffers whose last plays are among eight successive ones are different. */
  lemma DifferentBuffers(m: int, n: int, f: int)
    requires f - 8 <= m < f && f - 8 <= n < f && m != n
    ensures Slot(m) != Slot(n)
  {
  }

  /** A finished play is remembered, and its buffer silent. */
  lemma FinishPlays(r: Run, n: int)
    requires Counted(r) && Counted(Finish(r)) && -8 <= n <= r.finished
    ensures PlayAfter(Finish(r), n) == if n < r.finished then PlayAfter(r, n) else Silence(64)
  {
    hide Silence, Increasing;
    if n + 8 == r.finished {
      assert Slot(n) == Slot(r.finished);
    } else if r.finished - 8 < n < r.finished {
      DifferentBuffers(n, r.finished, r.finished + 1);
    }
  }

  lemma FinishConsistent(r: Run)
    requires Consistent(r)
    ensures Consistent(Finish(r))
  {
    FinishCounted(r);
    var g := Finish(r);
    forall k | 0 <= k < |g.popped|
      ensures PlayAfter(g, g.popped[k]) == PlayAfter(r, r.popped[k])
    {
      FinishPlays(r, r.popped[k]);
    }
    forall n | -8 <= n < g.finished && n !in g.popped
      ensures PlayAfter(g, n) == if n < r.finished then PlayAfter(r, n) else Silence(64)
    {
      FinishPlays(r, n);
    }
  }

  lemma PopCounted(r: Run)
    requires Counted(r) && r.waiting > 0 && (r.popped == [] || Position(r) == 64)
    ensures Counted(Pop(r)) && Position(Pop(r)) == 0
  {
  }

  lemma PopConsistent(r: Run)
    requires Consistent(r) && r.waiting > 0 && (r.popped == [] || Position(r) == 64)
    ensures Consistent(Pop(r)) && Position(Pop(r)) == 0
    ensures r.finished < Pop(r).popped[|r.popped|] + 8
  {
    PopCounted(r);
    if !r.late {
      PopInTime(r, Pop(r), r.finished - r.waiting);
    }
  }

  lemma FinishFields(r: Run)
    requires Consistent(r)
    ensures var g := Finish(r);
            && Consistent(g) && g.finished == r.finished + 1 && g.popped == r.popped && Position(g) == Position(r)
            && g.buffers == r.buffers[Slot(r.finished) := Silence(64)]
            && g.waiting == if r.waiting >= 7 then r.waiting else r.waiting + 1
  {
    FinishConsistent(r);
  }

  lemma PopFields(r: Run)
    requires Consistent(r) && r.waiting > 0 && (r.popped == [] || Position(r) == 64)
    ensures var p := Pop(r);
            && Consistent(p) && p.finished == r.finished && p.waiting == r.waiting - 1 && Position(p) == 0
            && p.buffers == r.buffers && p.popped != [] && p.popped[|p.popped| - 1] == r.finished - r.waiting
  {
    PopConsistent(r);
  }

  lemma PopInTime(r: Run, p: Run, n: nat)
    requires Consistent(r) && !r.late && r.waiting > 0 && n == r.finished - r.waiting
    requires p == Pop(r) && Counted(p) && |p.stream| == 64 * |r.popped|
    ensures InTime(p)
  {
    hide Silence, Increasing, Block, Position;
    EmptyBlock(p.stream, |r.popped|);
    assert n !in r.popped && p.popped[|r.popped|] == n;
    forall k | 0 <= k < |p.popped|
      ensures PlayAfter(p, p.popped[k]) == Block(p.stream, k)
    {
      PopPlays(r, p, p.popped[k]);
      assert k == |r.popped| || p.popped[k] == r.popped[k];
    }
    forall m | -8 <= m < p.finished && m !in p.popped
      ensures PlayAfter(p, m) == Silence(64)
    {
      PopPlays(r, p, m);
      assert m !in r.popped;
    }
  }

  lemma PopPlays(r: Run, p: Run, m: int)
    requires Counted(r) && r.waiting > 0 && p == Pop(r) && Counted(p) && -8 <= m < p.finished
    ensures PlayAfter(p, m) == PlayAfter(r, m)
  {
    hide Increasing;
  }

  lemma EmptyBlock(stream: seq<u32>, k: nat)
    requires |stream| == 64 * k
    ensures Block(stream, k) == Silence(64)
  {
  }

  lemma BlockGrows(stream: seq<u32>, sample: u32, k: nat)
    requires 64 * k <= |stream|
    ensures Block(stream + [sample], k) ==
            if |stream| < 64 * k + 64 then Block(stream, k)[|stream| - 64 * k := sample] else Block(stream, k)
  {
  }

  lemma PutCounted(r: Run, sample: u32)
    requires Counted(r) && r.popped != [] && Position(r) < 64
    ensures Counted(PutSample(r, sample)) && Position(PutSample(r, sample)) == Position(r) + 1
  {
  }

  /** Only the buffer in use changes. */
  lemma PutPlays(r: Run, sample: u32, n: int)
    requires Counted(r) && r.popped != [] && Position(r) < 64 && Counted(PutSample(r, sample)) && -8 <= n < r.finished
    requires r.finished < r.popped[|r.popped| - 1] + 8
    ensures PlayAfter(PutSample(r, sample), n) ==
            if n == r.popped[|r.popped| - 1] then PlayAfter(r, n)[Position(r) := sample] else PlayAfter(r, n)
  {
    var last := r.popped[|r.popped| - 1];
    if n + 8 >= r.finished && n != last {
      DifferentBuffers(n, last, r.finished);
    }
  }

  /** The block in use grows, and the others are complete. */
  lemma PutBlock(r: Run, sample: u32, k: nat)
    requires Consistent(r) && r.popped != [] && Position(r) < 64 && k < |r.popped|
    requires Counted(PutSample(r, sample)) && !PutSample(r, sample).late
    ensures PlayAfter(PutSample(r, sample), r.popped[k]) == Block(r.stream + [sample], k)
  {
    hide Silence, Block;
    PutPlays(r, sample, r.popped[k]);
    OtherBlocks(|r.popped| - 1, k);
    BlockGrows(r.stream, sample, k);
  }

  lemma PutConsistent(r: Run, sample: u32)
    requires Consistent(r) && r.popped != [] && Position(r) < 64
    ensures Consistent(PutSample(r, sample)) && Position(PutSample(r, sample)) == Position(r) + 1
  {
    hide Silence, Block, Increasing;
    PutCounted(r, sample);
    var p := PutSample(r, sample);
    if !p.late {
      forall k | 0 <= k < |p.popped|
        ensures PlayAfter(p, p.popped[k]) == Block(p.stream, k)
      {
        PutBlock(r, sample, k);
      }
      forall n | -8 <= n < p.finished && n !in p.popped
        ensures PlayAfter(p, n) == Silence(64)
      {
        PutPlays(r, sample, n);
      }
    }
  }

  lemma OtherBlocks(last: nat, k: nat)
    requires k <= last
    ensures 64 * k <= 64 * last && (k < last ==> 64 * k + 64 <= 64 * last)
  {
  }

  /**
    As long as the queue has never overflowed, a sample is late exactly when seven buffers are
    waiting: the condition of `i2s_is_empty`.
  */
  lemma LateExactly(r: Run, sample: u32)
    requires Counted(r) && r.popped != [] && r.dropped == 0 && Position(r) < 64
    ensures PutSample(r, sample).late <==> r.late || r.waiting == 7
  {
    var last := |r.popped| - 1;
    assert r.popped[last] == last;
  }

  /**
    Lossless playback: while the queue has never overflowed and no sample came late, the first
    eight plays are silent, and from then on the buffers play the samples accepted, in order and
    without gaps.
  */
  lemma PlaybackExact(r: Run, k: nat)
    requires Consistent(r) && !r.late && r.dropped == 0
    ensures k < 8 && k < r.finished ==> |r.played[k]| == 64 && forall i :: 0 <= i < 64 ==> r.played[k][i] == 0
    ensures k + 8 < r.finished ==> 64 * k + 64 <= |r.stream| && r.played[k + 8] == r.stream[64 * k..64 * k + 64]
  {
    if k + 8 < r.finished {
      assert r.popped[k] == k && PlayAfter(r, r.popped[k]) == r.played[k + 8];
      OtherBlocks(|r.popped| - 1, k);
    }
    if k < 8 && k < r.finished {
      assert PlayAfter(r, k - 8) == r.played[k];
    }
  }

  // ---------------------------------------------------------------- the driver

  type i16 = x: int | -0x8000 <= x < 0x8000

  function Unsigned(v: i16): nat {
    if v < 0 then v + 0x1_0000 else v
  }

  /** The word for frame i: a mono sample goes to both channels, a stereo pair left first. */
  function FrameWord(frames: seq<i16>, i: nat, mono: bool): u32
    requires (if mono then i else 2 * i + 1) < |frames|
  {
    if mono then Unsigned(frames[i]) * 0x1_0000 + Unsigned(frames[i])
    else Unsigned(frames[2 * i]) * 0x1_0000 + Unsigned(frames[2 * i + 1])
  }

  /** The high and the low half of a word, read as signed numbers, are the samples of its frame. */
  lemma FrameHalves(frames: seq<i16>, i: nat, mono: bool)
    requires (if mono then i else 2 * i + 1) < |frames|
    ensures var w := FrameWord(frames, i, mono);
            var high, low := w / 0x1_0000, w % 0x1_0000;
            && (if high < 0x8000 then high else high - 0x1_0000) == (if mono then frames[i] else frames[2 * i])
            && (if low < 0x8000 then low else low - 0x1_0000) == (if mono then frames[i] else frames[2 * i + 1])
  {
  }

  /** Whether there are frames enough. */
  predicate Frames(frames: seq<i16>, count: nat, mono: bool) {
    (if mono then count else 2 * count) <= |frames|
  }

  function FrameWords(frames: seq<i16>, n: nat, mono: bool): (words: seq<u32>)
    requires Frames(frames, n, mono)
    ensures |words| == n
  {
    if n == 0 then [] else FrameWords(frames, n - 1, mono) + [FrameWord(frames, n - 1, mono)]
  }

  /** The words are those of the frames, one after the other. */
  lemma {:induction false} FrameWordsAt(frames: seq<i16>, n: nat, mono: bool, i: nat)
    requires Frames(frames, n, mono) && i < n
    ensures FrameWords(frames, n, mono)[i] == FrameWord(frames, i, mono)
    decreases n
  {
    if i < n - 1 {
      FrameWordsAt(frames, n - 1, mono, i);
    }
  }

  /** s is r after some more plays. */
  ghost predicate Later(r: Run, s: Run) {
    && s.popped == r.popped && s.stream == r.stream && s.late == r.late
    && s.finished >= r.finished && s.dropped >= r.dropped && s.waiting >= r.waiting
  }

  class Transmitter {
    // The queue of buffer numbers, and its length.
    const queue: array<nat>
    var queueLen: nat
    var buffers: seq<seq<u32>>
    // The buffer being filled, and how far it is.
    var current: Option<nat>
    var position: nat
    // The buffer the DMA engine is playing.
    var playing: nat
    ghost var run: Run

    constructor ()
      ensures Valid() && fresh(queue) && run.stream == [] && run.finished == 0 && run.dropped == 0 && !run.late
    {
      queue := new nat[8];
      queueLen, current, position, playing := 0, None, 0, 0;
      buffers := seq(8, _ => Silence(64));
      run := Run(seq(8, _ => Silence(64)), 0, 0, [], [], [], 0, false);
    }

    /** The queue holds the buffers of the last plays up to play f. */
    ghost predicate QueueIs(f: nat)
      reads `queueLen, queue
    {
      && queue.Length == 8 && queueLen <= 7 && queueLen <= f
      && forall i :: 0 <= i < queueLen ==> queue[i] == Slot(f - queueLen + i)
    }

    /** The queue is exactly the last buffers finished, in the order they finished. */
    ghost predicate Valid()
      reads this, queue
    {
      && Consistent(run)
      && run.buffers == buffers && run.waiting == queueLen && playing == Slot(run.finished)
      && QueueIs(run.finished)
      && (if run.popped == [] then current.None?
          else current == Some(Slot(run.popped[|run.popped| - 1])) && position == Position(run))
    }

    /** The entries of the queue are different buffers, and none is being played. */
    lemma QueueDistinct(i: nat, j: nat)
      requires Valid() && i < j < queueLen
      ensures queue[i] != queue[j] && queue[j] != playing && queue[i] != playing
    {
      var f := run.finished;
      DifferentBuffers(f - queueLen + i, f - queueLen + j, f + 1);
      DifferentBuffers(f - queueLen + i, f, f + 1);
      DifferentBuffers(f - queueLen + j, f, f + 1);
    }

    /** `i2s_slc_queue_next_item`. */
    method QueueNextItem(ghost f: nat) returns (item: nat)
      requires 0 < queueLen && QueueIs(f)
      modifies `queueLen, queue
      ensures item == Slot(f - old(queueLen)) && queueLen == old(queueLen) - 1 && QueueIs(f)
    {
      hide Slot;
      item := queue[0];
      queueLen := queueLen - 1;
      var i := 0;
      while i < queueLen
        invariant queueLen == old(queueLen) - 1 && 0 <= i <= queueLen
        invariant forall j :: 0 <= j < i ==> queue[j] == old(queue[j + 1])
        invariant forall j :: i <= j < 8 ==> queue[j] == old(queue[j])
      {
        queue[i] := queue[i + 1];
        i := i + 1;
      }
    }

    /** The part of `i2s_slc_isr` that queues the finished buffer. */
    method Push(finishedItem: nat, ghost f: nat)
      requires QueueIs(f) && finishedItem == Slot(f)
      modifies `queueLen, queue
      ensures QueueIs(f + 1) && queueLen == if old(queueLen) >= 7 then old(queueLen) else old(queueLen) + 1
    {
      hide Slot;
      if queueLen >= SLC_BUF_CNT - 1 {
        var _ := QueueNextItem(f);
      }
      queue[queueLen] := finishedItem;
      queueLen := queueLen + 1;
    }

    /** The engine goes on to the next buffer, and the one it has finished is silenced. */
    method EndPlay() returns (finishedItem: nat)
      requires playing < 8 && |buffers| == 8 && run.buffers == buffers
      modifies `buffers, `playing, `run
      ensures finishedItem == old(playing) && playing == (if finishedItem < 7 then finishedItem + 1 else 0)
      ensures run == Finish(old(run)) && buffers == old(buffers)[finishedItem := Silence(64)]
    {
      finishedItem := playing;
      playing := if playing < SLC_BUF_CNT - 1 then playing + 1 else 0;
      buffers := buffers[finishedItem := Silence(64)];
      run := Finish(run);
    }

    /** The transmit part of `i2s_slc_isr`, as a play finishes and the engine goes on to the next buffer. */
    method Isr()
      requires Valid()
      modifies `queueLen, `buffers, `playing, `run, queue
      ensures Valid() && run == Finish(old(run))
    {
      hide Consistent, Silence, Slot, QueueIs, Finish, Position;
      Bounds();
      FinishFields(run);
      NextBuffer(run.finished);
      ghost var f := run.finished;
      var finishedItem := EndPlay();
      Push(finishedItem, f);
    }

    lemma Bounds()
      requires Valid()
      ensures queueLen <= 7 && queueLen <= run.finished && |buffers| == 8
      ensures run.popped != [] ==> |buffers[Slot(run.popped[|run.popped| - 1])]| == 64
    {
    }

    static lemma NextBuffer(f: nat)
      ensures Slot(f + 1) == if Slot(f) < 7 then Slot(f) + 1 else 0
    {
    }

    /** Any number of plays finish. */
    method Interrupts()
      requires Valid()
      modifies `queueLen, `buffers, `playing, `run, queue
      ensures Valid() && Later(old(run), run) && queueLen >= old(queueLen)
    {
      hide Valid;
      var n: nat := *;
      while n > 0
        invariant Valid() && Later(old(run), run) && queueLen >= old(queueLen)
      {
        IsrCounts();
        Isr();
        IsrCounts();
        n := n - 1;
      }
    }

    lemma IsrCounts()
      requires Valid()
      ensures Later(run, Finish(run)) && Finish(run).waiting > 0 && run.waiting == queueLen
    {
    }

    /** Waits until the queue has a buffer; plays go on finishing. */
    method WaitForBuffer()
      requires Valid()
      modifies `queueLen, `buffers, `playing, `run, queue
      ensures Valid() && Later(old(run), run) && queueLen > 0
    {
      while queueLen == 0
        invariant Valid() && Later(old(run), run)
        decreases if queueLen == 0 then 1 else 0
      {
        IsrCounts();
        Isr();
      }
    }

    /** Takes the next buffer, with interrupts disabled. */
    method TakeBuffer()
      requires Valid() && queueLen > 0 && (current.None? || position == SLC_BUF_LEN)
      modifies `queueLen, `current, `position, `run, queue
      ensures Valid() && run == Pop(old(run)) && current.Some? && position == 0
    {
      hide Consistent, Silence, Slot, QueueIs, Pop, Position;
      Bounds();
      PopFields(run);
      var item := QueueNextItem(run.finished);
      current := Some(item);
      position := 0;
      run := Pop(run);
    }

    lemma LateSeen(sample: u32)
      requires Valid() && current.Some? && position < SLC_BUF_LEN
      ensures run.dropped == 0 ==> (PutSample(run, sample).late <==> run.late || queueLen == 7)
    {
      if run.dropped == 0 {
        LateExactly(run, sample);
      }
    }

    /** `i2s_is_empty`. */
    predicate IsEmpty()
      reads this
    {
      queueLen >= SLC_BUF_CNT - 1
    }

    lemma EmptyMeans()
      requires Valid()
      ensures IsEmpty() <==> queueLen == 7
    {
    }

    /** Stores one sample in the buffer being filled. */
    method Store(sample: u32)
      requires Valid() && current.Some? && position < SLC_BUF_LEN
      modifies `buffers, `position, `run
      ensures Valid() && run == PutSample(old(run), sample)
      ensures position == old(position) + 1 && current == old(current)
      ensures run.dropped == 0 ==> (run.late <==> old(run.late) || queueLen == 7)
    {
      hide Consistent, Silence, Slot, QueueIs;
      Bounds();
      PutConsistent(run, sample);
      LateSeen(sample);
      var filled: seq<u32> := buffers[current.value][position := sample];
      buffers := buffers[current.value := filled];
      position := position + 1;
      run := PutSample(run, sample);
    }

    /** There is room in a buffer, or there is none. */
    predicate NeedsBuffer()
      reads this
    {
      position == SLC_BUF_LEN || current.None?
    }

    lemma Room()
      requires Valid()
      ensures !NeedsBuffer() ==> current.Some? && position < SLC_BUF_LEN
    {
    }

    /** Makes sure of room in the current buffer; without waiting this fails when the queue is empty. */
    method NextBufferIfNeeded(nb: bool) returns (ok: bool)
      requires Valid()
      modifies `queueLen, `buffers, `current, `position, `playing, `run, queue
      ensures Valid() && run.stream == old(run.stream) && run.dropped >= old(run.dropped)
      ensures run.late == old(run.late)
      ensures ok ==> current.Some? && position < SLC_BUF_LEN
      ensures ok ==> position == if old(NeedsBuffer()) then 0 else old(position)
      ensures !ok ==> nb && NeedsBuffer() && queueLen == 0 && old(NeedsBuffer() && queueLen == 0)
    {
      hide Valid;
      Interrupts();
      if NeedsBuffer() {
        if queueLen == 0 {
          if nb {
            return false;
          }
          WaitForBuffer();
        }
        Interrupts();
        TakeBuffer();
      }
      Interrupts();
      Room();
      ok := true;
    }

    /**
      `_i2s_write_sample`.  The caller can tell that a sample was not late: with no buffer lost,
      `i2s_is_empty` says no afterwards.
    */
    method WriteSample(sample: u32, nb: bool) returns (ok: bool)
      requires Valid()
      modifies `queueLen, `buffers, `current, `position, `playing, `run, queue
      ensures Valid() && run.dropped >= old(run.dropped)
      ensures run.stream == if ok then old(run.stream) + [sample] else old(run.stream)
      ensures !old(run.late) && run.dropped == 0 && !IsEmpty() ==> !run.late
      ensures !ok ==> nb && old(NeedsBuffer() && queueLen == 0)
    {
      hide Valid;
      ok := NextBufferIfNeeded(nb);
      if ok {
        Store(sample);
      }
    }

    /** The inner loop of `_i2s_write_buffer`. */
    method StoreFrames(frames: seq<i16>, from: nat, count: nat, mono: bool, ghost before: seq<u32>)
      requires Valid() && current.Some? && position + count <= SLC_BUF_LEN && Frames(frames, from + count, mono)
      requires run.stream == before + FrameWords(frames, from, mono)
      modifies `queueLen, `buffers, `position, `playing, `run, queue
      ensures Valid() && run.dropped >= old(run.dropped)
      ensures run.stream == before + FrameWords(frames, from + count, mono)
      ensures !old(run.late) && run.dropped == 0 && !IsEmpty() ==> !run.late
    {
      hide Valid;
      for i := 0 to count
        invariant Valid() && run.dropped >= old(run.dropped)
        invariant !old(run.late) && run.dropped == 0 && !IsEmpty() ==> !run.late
        invariant current.Some? && position == old(position) + i
        invariant run.stream == before + FrameWords(frames, from + i, mono)
      {
        Store(FrameWord(frames, from + i, mono));
        assert FrameWords(frames, from + i + 1, mono)
            == FrameWords(frames, from + i, mono) + [FrameWord(frames, from + i, mono)];
        Interrupts();
      }
    }

    /** How many frames go to the buffer in use, or to the next one when that is full. */
    function OnePiece(): int
      reads this
    {
      if NeedsBuffer() then SLC_BUF_LEN else SLC_BUF_LEN - position
    }

    /**
      `_i2s_write_buffer`: accepts a prefix of the frames, and all of them when it may wait; else it
      stops only where no buffer is free.  The caller can tell that frames for one buffer were not
      late, as with a sample.
    */
    method WriteBuffer(frames: seq<i16>, frameCount: nat, mono: bool, nb: bool) returns (written: nat)
      requires Valid() && frameCount < 0x1_0000 && Frames(frames, frameCount, mono)
      modifies `queueLen, `buffers, `current, `position, `playing, `run, queue
      ensures Valid() && run.dropped >= old(run.dropped) && written <= frameCount
      ensures run.stream == old(run.stream) + FrameWords(frames, written, mono)
      ensures written < frameCount ==> nb && NeedsBuffer() && queueLen == 0
      ensures frameCount <= old(OnePiece()) && !old(run.late) && run.dropped == 0 && !IsEmpty() ==> !run.late
    {
      hide Valid;
      written := 0;
      ghost var single := frameCount <= OnePiece() && !run.late;
      while written < frameCount
        invariant Valid() && run.dropped >= old(run.dropped) && written <= frameCount
        invariant run.stream == old(run.stream) + FrameWords(frames, written, mono)
        invariant single && written == 0 ==> !run.late && frameCount <= OnePiece()
        invariant single && written > 0 ==> written == frameCount
        invariant single && run.dropped == 0 && !IsEmpty() ==> !run.late
      {
        var ok := NextBufferIfNeeded(nb);
        if !ok {
          return;
        }
        var available := SLC_BUF_LEN - position;
        var fc := if available < frameCount - written then available else frameCount - written;
        StoreFrames(frames, written, fc, mono, old(run.stream));
        written := written + fc;
      }
    }
  }
}
