/**
 Playback of an animation that is decoded while it plays: which frames are shown, when playback
 finishes, and how much one timer tick may decode.
 */
module DynamicAnimation {
  import opened Prelude

  /** Times are in nanoseconds, delays in whole milliseconds. */
  const MILLISECOND := 1_000_000

  const PAUSE_AFTER := 1000 * MILLISECOND

  /** How many frames an animation with `loopCount >= 0` extra loops shows in all. */
  function FramesInAll(frameCount: int, loopCount: int): int {
    frameCount * (loopCount + 1)
  }

  /** What `n` frames read after the first `read` ones ask to be shown for. */
  function Waited(delay: nat -> int, read: nat, n: nat): int {
    if n == 0 then 0 else Waited(delay, read, n - 1) + delay(read + n) * MILLISECOND
  }

  /** After `n` frames the catching up is over: the next read fails, a delay is 0, or the time is used up. */
  ghost predicate EndsAfter(readable: nat -> bool, delay: nat -> int, read: nat, time: int, n: nat) {
    || !readable(read + n)
    || (0 < n && delay(read + n) == 0)
    || time < Waited(delay, read, n)
  }

  lemma NothingWaited(delay: nat -> int, read: nat)
    ensures Waited(delay, read, 0) == 0
  {
  }

  lemma NotYet(readable: nat -> bool, delay: nat -> int, read: nat, time: int, n: nat)
    requires readable(read + n) && (0 < n ==> delay(read + n) != 0) && Waited(delay, read, n) <= time
    ensures !EndsAfter(readable, delay, read, time, n)
    ensures Waited(delay, read, n + 1) == Waited(delay, read, n) + delay(read + n + 1) * MILLISECOND
  {
  }

  /** Each of `n` frames comes up within `time`, and only the last one may have no delay. */
  ghost predicate AllDue(delay: nat -> int, read: nat, time: int, n: nat) {
    forall i: nat :: i < n ==> Waited(delay, read, i) <= time && (0 < i ==> delay(read + i) != 0)
  }

  lemma NoneDue(delay: nat -> int, read: nat, time: int)
    ensures AllDue(delay, read, time, 0)
  {
  }

  lemma OneMoreDue(delay: nat -> int, read: nat, time: int, n: nat)
    requires AllDue(delay, read, time, n) && Waited(delay, read, n) <= time && (0 < n ==> delay(read + n) != 0)
    ensures AllDue(delay, read, time, n + 1)
  {
  }

  ghost predicate Ends(readable: nat -> bool, delay: nat -> int, read: nat, time: int) {
    exists n: nat :: EndsAfter(readable, delay, read, time, n)
  }

  lemma EndingOf(readable: nat -> bool, delay: nat -> int, read: nat, time: int) returns (n: nat)
    requires Ends(readable, delay, read, time)
    ensures EndsAfter(readable, delay, read, time, n)
  {
    n :| EndsAfter(readable, delay, read, time, n);
  }

  ghost predicate NonNegative(delay: nat -> int) {
    forall i :: 0 <= delay(i)
  }

  lemma {:induction false} WaitedAtLeast(readable: nat -> bool, delay: nat -> int, read: nat, time: int, n: nat)
    requires NonNegative(delay)
    ensures n * MILLISECOND <= Waited(delay, read, n) || Ends(readable, delay, read, time)
  {
    if n > 0 {
      WaitedAtLeast(readable, delay, read, time, n - 1);
      if delay(read + n) == 0 {
        assert EndsAfter(readable, delay, read, time, n);
      }
    }
  }

  /** With non-negative delays every catching up comes to an end ... */
  lemma NonNegativeEnds(readable: nat -> bool, delay: nat -> int, read: nat, time: int)
    requires NonNegative(delay)
    ensures Ends(readable, delay, read, time)
  {
    var n := Max(0, time) + 1;
    WaitedAtLeast(readable, delay, read, time, n);
    if n * MILLISECOND <= Waited(delay, read, n) {
      assert EndsAfter(readable, delay, read, time, n);
    }
  }

  /** ... and with negative ones it never does, if the animation has no last frame. */
  lemma NegativeNeverEnds(readable: nat -> bool, delay: nat -> int, read: nat, time: nat)
    requires forall i :: readable(i) && delay(i) < 0
    ensures !Ends(readable, delay, read, time)
  {
    forall n: nat ensures !EndsAfter(readable, delay, read, time, n) {
      WaitedNegative(delay, read, n);
    }
  }

  lemma {:induction false} WaitedNegative(delay: nat -> int, read: nat, n: nat)
    requires forall i :: delay(i) < 0
    ensures Waited(delay, read, n) <= 0
  {
    if n > 0 {
      WaitedNegative(delay, read, n - 1);
    }
  }

  // ---------------------------------------------------------------------------------------------
  // Delays that repeat
  // ---------------------------------------------------------------------------------------------

  /** Every loop reads the same bytes again, so the delays repeat after `p` frames. */
  ghost predicate Periodic(delay: nat -> int, p: nat) {
    0 < p && forall i: nat :: delay(i + p) == delay(i)
  }

  /** One cycle has a frame without delay, or takes time on the whole. */
  ghost predicate TakesTime(delay: nat -> int, p: nat) {
    (exists i: nat :: i < p && delay(i) == 0) || 0 < Waited(delay, 0, p)
  }

  ghost predicate ReadableUpTo(readable: nat -> bool, read: nat) {
    forall i: nat :: i < read ==> readable(i)
  }

  lemma {:induction false} WaitedSplits(delay: nat -> int, read: nat, m: nat, n: nat)
    ensures Waited(delay, read, m + n) == Waited(delay, read, m) + Waited(delay, read + m, n)
  {
    if n > 0 {
      WaitedSplits(delay, read, m, n - 1);
    }
  }

  /** A cycle takes the same time wherever it starts. */
  lemma {:induction false} CycleAnywhere(delay: nat -> int, p: nat, read: nat)
    requires Periodic(delay, p)
    ensures Waited(delay, read, p) == Waited(delay, 0, p)
  {
    if read > 0 {
      var r := read - 1;
      CycleAnywhere(delay, p, r);
      WaitedSplits(delay, r, 1, p);
      WaitedSplits(delay, r, p, 1);
      OneFrame(delay, r);
      OneFrame(delay, r + p);
      assert delay(r + 1 + p) == delay(r + 1);
    }
  }

  lemma OneFrame(delay: nat -> int, read: nat)
    ensures Waited(delay, read, 1) == delay(read + 1) * MILLISECOND
  {
    assert Waited(delay, read, 1) == Waited(delay, read, 0) + delay(read + 1) * MILLISECOND;
  }

  /** If a cycle takes time, enough frames take any time. */
  lemma {:induction false} FramesFor(delay: nat -> int, p: nat, read: nat, time: nat) returns (n: nat)
    requires Periodic(delay, p) && 0 < Waited(delay, 0, p)
    ensures time <= Waited(delay, read, n)
    decreases time
  {
    n := 0;
    if time > 0 {
      n := FramesFor(delay, p, read, time - 1);
      WaitedSplits(delay, read, n, p);
      CycleAnywhere(delay, p, read + n);
      n := n + p;
    }
  }

  /** A delay of 0 comes up again and again. */
  lemma {:induction false} ZeroRecurs(delay: nat -> int, p: nat, i: nat, read: nat) returns (n: nat)
    requires Periodic(delay, p) && delay(i) == 0
    ensures 0 < n && delay(read + n) == 0
    decreases read - i
  {
    if read < i {
      n := i - read;
    } else {
      n := ZeroRecurs(delay, p, i + p, read);
    }
  }

  lemma {:induction false} ZeroInCycle(delay: nat -> int, p: nat, i: nat)
    requires Periodic(delay, p) && delay(i) == 0
    ensures exists j: nat :: j < p && delay(j) == 0
    decreases i
  {
    if i >= p {
      assert delay(i - p + p) == delay(i - p);
      ZeroInCycle(delay, p, i - p);
    }
  }

  lemma TakesTimeEnds(readable: nat -> bool, delay: nat -> int, p: nat, read: nat, time: int)
    requires Periodic(delay, p) && TakesTime(delay, p)
    ensures Ends(readable, delay, read, time)
  {
    if i: nat :| i < p && delay(i) == 0 {
      var n := ZeroRecurs(delay, p, i, read);
      assert EndsAfter(readable, delay, read, time, n);
    } else {
      var n := FramesFor(delay, p, read, Max(0, time + 1));
      assert EndsAfter(readable, delay, read, time, n);
    }
  }

  /** The longest that fewer than `n` frames take. */
  function Longest(delay: nat -> int, read: nat, n: nat): int {
    if n == 0 then 0 else Max(Longest(delay, read, n - 1), Waited(delay, read, n - 1))
  }

  lemma {:induction false} LongestIs(delay: nat -> int, read: nat, n: nat, m: nat)
    requires m < n
    ensures Waited(delay, read, m) <= Longest(delay, read, n)
  {
    if m < n - 1 {
      LongestIs(delay, read, n - 1, m);
    }
  }

  /** If a cycle takes no time, no number of frames takes longer than some number within the first cycle. */
  lemma {:induction false} NeverLonger(delay: nat -> int, p: nat, read: nat, n: nat)
    requires Periodic(delay, p) && Waited(delay, 0, p) <= 0
    ensures Waited(delay, read, n) <= Longest(delay, read, p)
    decreases n
  {
    if n < p {
      LongestIs(delay, read, p, n);
    } else {
      WaitedSplits(delay, read, n - p, p);
      CycleAnywhere(delay, p, read + n - p);
      NeverLonger(delay, p, read, n - p);
    }
  }

  lemma NoTimeNeverEnds(readable: nat -> bool, delay: nat -> int, p: nat, read: nat)
    requires Periodic(delay, p) && !TakesTime(delay, p) && forall i :: readable(i)
    ensures !Ends(readable, delay, read, Longest(delay, read, p))
  {
    forall n: nat ensures !EndsAfter(readable, delay, read, Longest(delay, read, p), n) {
      NeverLonger(delay, p, read, n);
      if 0 < n && delay(read + n) == 0 {
        ZeroInCycle(delay, p, read + n);
      }
    }
  }

  /**
   With repeating delays and readable frames, every catching up ends exactly when a cycle has a frame
   without delay or takes time on the whole.
   */
  lemma PeriodicEndsIff(readable: nat -> bool, delay: nat -> int, p: nat)
    requires Periodic(delay, p) && forall i :: readable(i)
    ensures (forall read: nat, time: int :: Ends(readable, delay, read, time)) <==> TakesTime(delay, p)
  {
    if TakesTime(delay, p) {
      forall read: nat, time: int ensures Ends(readable, delay, read, time) {
        TakesTimeEnds(readable, delay, p, read, time);
      }
    } else {
      NoTimeNeverEnds(readable, delay, p, 0);
    }
  }

  /** Up to a frame that cannot be read, every catching up ends there at the latest. */
  lemma UnreadableEnds(readable: nat -> bool, delay: nat -> int, read: nat, time: int)
    requires ReadableUpTo(readable, read) && exists m: nat :: !readable(m)
    ensures Ends(readable, delay, read, time)
  {
    var m: nat :| !readable(m);
    assert EndsAfter(readable, delay, read, time, m - read);
  }

  class DynamicFrames {
    const frameCount: int
    const loopCount: int
    /** Whether the i-th read of the decoder succeeds, and the delay it states afterwards. */
    const readable: nat -> bool
    const delay: nat -> int

    var readCount: nat
    var frameIndex: int
    var remainingLoops: int
    var lastUsed: int
    var nextFrame: int
    var paused: bool
    var finished: bool
    /** The frames put on screen so far, oldest first, and how often playback started over. */
    ghost var shown: seq<int>
    ghost var wraps: nat

    /** The frames go round in order. */
    ghost predicate InOrder()
      reads this`frameIndex, this`shown, this`wraps
    {
      && 1 < frameCount && 0 <= frameIndex < frameCount
      && |shown| == wraps * frameCount + frameIndex + 1
      && (forall i :: 0 <= i < |shown| ==> shown[i] == i % frameCount)
      && (loopCount >= 0 ==> wraps <= loopCount)
    }

    /** The remaining loops; a negative number never runs out. */
    ghost predicate LoopsCounted()
      reads this`remainingLoops, this`wraps
    {
      remainingLoops == if loopCount >= 0 then loopCount - wraps else loopCount
    }

    /** Every frame of every loop has been shown. */
    ghost predicate Complete()
      reads this`shown
    {
      loopCount >= 0 && |shown| == FramesInAll(frameCount, loopCount)
    }

    /** The last read of the decoder failed. */
    ghost predicate ReadFailed()
      reads this`readCount
    {
      0 < readCount && !readable(readCount - 1)
    }

    /** Playback finishes only when everything has been shown or the decoder fails. */
    ghost predicate Valid()
      reads this
    {
      && InOrder() && Periodic(delay, frameCount)
      && if finished then Complete() || ReadFailed() else LoopsCounted() && ReadableUpTo(readable, readCount)
    }

    /** Any catching up returns: there is a last frame, or it comes to an end wherever playback has got to. */
    ghost predicate AlwaysReturns()
    {
      loopCount >= 0
      || forall read: nat, time: int :: ReadableUpTo(readable, read) ==> Ends(readable, delay, read, time)
    }

    /** There is a last frame, one that cannot be read, one without delay, or a cycle takes time on the whole. */
    ghost predicate CanReturn()
      requires 1 < frameCount
    {
      loopCount >= 0 || TakesTime(delay, frameCount) || exists m: nat :: !readable(m)
    }

    /** That is exactly what it takes. */
    lemma ReturnsIff()
      requires 1 < frameCount && Periodic(delay, frameCount)
      ensures AlwaysReturns() <==> CanReturn()
    {
      if m: nat :| !readable(m) {
        forall read: nat, time: int | ReadableUpTo(readable, read) ensures Ends(readable, delay, read, time) {
          UnreadableEnds(readable, delay, read, time);
        }
      } else {
        PeriodicEndsIff(readable, delay, frameCount);
      }
    }

    /** A tick at `now` returns: it is not due, there is a last frame, or the catching up comes to an end. */
    ghost predicate Returns(now: int)
      reads this
    {
      finished || paused || now - lastUsed > PAUSE_AFTER || now < nextFrame || loopCount >= 0
      || Ends(readable, delay, readCount, now - Max(nextFrame, now - GIF_FRAME_LENGTH * MILLISECOND))
    }

    /** A tick that does something: playback goes on, has been painted lately, and a frame is due. */
    ghost predicate Due(now: int)
      reads this
    {
      !finished && !paused && now - lastUsed <= PAUSE_AFTER && nextFrame <= now
    }

    /** An animated file whose first frame could be read. */
    constructor (frameCount: int, loopCount: int, readable: nat -> bool, delay: nat -> int)
      requires 1 < frameCount && Periodic(delay, frameCount)
      ensures Valid() && shown == [0] && !finished && paused
      ensures this.frameCount == frameCount && this.loopCount == loopCount
      ensures this.readable == readable && this.delay == delay
    {
      this.frameCount, this.loopCount, this.readable, this.delay := frameCount, loopCount, readable, delay;
      readCount, frameIndex, remainingLoops := 0, 0, loopCount;
      lastUsed, nextFrame, paused, finished := 0, 0, true, false;
      shown, wraps := [0], 0;
    }

    lemma AtMostAll()
      requires InOrder()
      ensures loopCount >= 0 ==> |shown| <= FramesInAll(frameCount, loopCount)
    {
      Counting(frameCount, loopCount, wraps, frameIndex);
    }

    method ReadNext() returns (ok: bool)
      modifies this`readCount
      ensures ok == readable(old(readCount)) && readCount == old(readCount) + 1
    {
      ok := readable(readCount);
      readCount := readCount + 1;
    }

    /** Shows the next frame, or the first one again while loops remain. */
    method DecodeNext() returns (ok: bool)
      requires Valid() && !finished
      modifies this`readCount, this`frameIndex, this`remainingLoops, this`shown, this`wraps
      ensures InOrder()
      ensures ok <==> !old(Complete()) && readable(old(readCount))
      ensures readCount == old(readCount) + if old(Complete()) then 0 else 1
      ensures shown == if ok then old(shown) + [|old(shown)| % frameCount] else old(shown)
      ensures if ok then LoopsCounted() && ReadableUpTo(readable, readCount) else Complete() || ReadFailed()
      ensures ok && loopCount >= 0 ==> |shown| <= FramesInAll(frameCount, loopCount)
    {
      Counting(frameCount, loopCount, wraps, frameIndex);
      if frameIndex + 1 < frameCount {
        ok := ReadNext();
        if !ok {
          return;
        }
        frameIndex := frameIndex + 1;
        DivModUnique(|shown|, wraps, frameIndex, frameCount);
        shown := shown + [frameIndex];
        return;
      }
      if remainingLoops == 0 {
        return false;
      }
      if remainingLoops > 0 {
        remainingLoops := remainingLoops - 1;
      }
      ok := ReadNext();
      if !ok {
        return;
      }
      frameIndex := 0;
      wraps := wraps + 1;
      DivModUnique(|shown|, wraps, 0, frameCount);
      shown := shown + [0];
    }

    /**
     What catching up from `from` on means: each of the `decoded` frames was due by `now`, counted by the
     delays of the frames before it. Unless playback is over, the next frame is due when these delays have
     passed, which they have not yet, or at once after a frame without a delay.
     */
    ghost predicate CaughtUp(read: nat, from: int, now: int, later: int, decoded: nat)
      reads this`readCount, this`nextFrame, this`finished
    {
      && AllDue(delay, read, now - from, decoded)
      && if finished then
           Waited(delay, read, decoded) <= now - from && (0 < decoded ==> delay(read + decoded) != 0)
         else
           && 0 < decoded && readCount == read + decoded
           && nextFrame == (if delay(read + decoded) == 0 then later else from + Waited(delay, read, decoded))
           && (delay(read + decoded) != 0 ==> now < nextFrame)
    }

    /** Decodes what is due up to `now`; stops at a frame without a delay. */
    method CatchUp(now: int, later: int) returns (ghost decoded: nat)
      requires Valid() && !finished && nextFrame <= now
      requires loopCount >= 0 || Ends(readable, delay, readCount, now - nextFrame)
      modifies this`readCount, this`frameIndex, this`remainingLoops, this`shown, this`wraps, this`nextFrame, this`finished
      ensures Valid()
      ensures |shown| == |old(shown)| + decoded && old(shown) <= shown
      ensures CaughtUp(old(readCount), old(nextFrame), now, later, decoded)
      ensures NonNegative(delay) ==> (decoded - 1) * MILLISECOND <= now - old(nextFrame)
    {
      hide InOrder, LoopsCounted, Complete, ReadFailed, FramesInAll, EndsAfter, Waited, Ends, Periodic, ReadableUpTo, AllDue;
      ghost var from, read, before, limit := nextFrame, readCount, shown, 0;
      if loopCount >= 0 {
        AtMostAll();
        limit := FramesInAll(frameCount, loopCount) - |shown|;
      } else {
        limit := EndingOf(readable, delay, read, now - from);
      }
      NothingWaited(delay, read);
      NoneDue(delay, read, now - from);
      decoded := 0;
      while nextFrame <= now
        invariant Valid() && !finished
        invariant |shown| == |before| + decoded && before <= shown && readCount == read + decoded
        invariant nextFrame == from + Waited(delay, read, decoded) && (decoded == 0 ==> nextFrame <= now)
        invariant 0 < decoded ==> delay(readCount) != 0
        invariant decoded <= limit
        invariant AllDue(delay, read, now - from, decoded)
        invariant NonNegative(delay) ==>
                    decoded * MILLISECOND <= nextFrame - from && (decoded - 1) * MILLISECOND <= now - from
        decreases limit - decoded
      {
        var ok := DecodeNext();
        if !ok {
          finished := true;
          return;
        }
        NotYet(readable, delay, read, now - from, decoded);
        OneMoreDue(delay, read, now - from, decoded);
        decoded := decoded + 1;
        var wait := delay(readCount);
        nextFrame := nextFrame + wait * MILLISECOND;
        if wait == 0 {
          nextFrame := later;
          break;
        }
      }
    }

    /**
     One timer tick at time `now`; `later` is the clock when it is read again. It returns under the
     stated condition, which only an endless animation with negative delays can fail. With non-negative
     delays it decodes at most `GIF_FRAME_LENGTH + 1` frames.
     */
    method Advance(now: int, later: int) returns (ghost decoded: nat)
      requires Valid() && Returns(now)
      modifies this
      ensures Valid() && lastUsed == old(lastUsed)
      ensures |shown| == |old(shown)| + decoded && old(shown) <= shown
      ensures NonNegative(delay) ==> decoded <= GIF_FRAME_LENGTH + 1
      ensures old(finished) || old(paused) || now < old(nextFrame) || now - old(lastUsed) > PAUSE_AFTER ==> decoded == 0
      ensures old(finished) ==> finished
      ensures paused == (old(paused) || (!old(finished) && now - old(lastUsed) > PAUSE_AFTER))
      ensures if old(Due(now))
              then CaughtUp(old(readCount), Max(old(nextFrame), now - GIF_FRAME_LENGTH * MILLISECOND), now, later, decoded)
              else (readCount, frameIndex, nextFrame, finished)
                   == (old(readCount), old(frameIndex), old(nextFrame), old(finished))
    {
      hide InOrder, LoopsCounted, Complete, ReadFailed, FramesInAll, Ends, Periodic, ReadableUpTo;
      decoded := 0;
      if finished || paused {
        return;
      }
      if now - lastUsed > PAUSE_AFTER {
        paused := true;
        return;
      }
      if now < nextFrame {
        return;
      }
      nextFrame := Max(nextFrame, now - GIF_FRAME_LENGTH * MILLISECOND);
      decoded := CatchUp(now, later);
    }

    /** Being painted keeps playback going, or resumes it without catching up. */
    method OnPaint(paintTime: int)
      requires Valid()
      modifies this`nextFrame, this`paused, this`lastUsed
      ensures Valid() && shown == old(shown) && finished == old(finished)
      ensures !finished ==> !paused && lastUsed == paintTime
      ensures !finished && (old(paused) || paintTime - old(lastUsed) > PAUSE_AFTER) ==>
                nextFrame == paintTime + delay(readCount) * MILLISECOND
      ensures finished || !(old(paused) || paintTime - old(lastUsed) > PAUSE_AFTER) ==>
                nextFrame == old(nextFrame) && paused == old(paused)
      ensures finished ==> lastUsed == old(lastUsed)
    {
      if finished {
        return;
      }
      if paused || paintTime - lastUsed > PAUSE_AFTER {
        nextFrame := paintTime + delay(readCount) * MILLISECOND;
        paused := false;
      }
      lastUsed := paintTime;
    }
  }

  /** Where the playback stands, counted in frames. */
  lemma Counting(frameCount: int, loopCount: int, wraps: nat, frameIndex: int)
    requires 1 < frameCount && 0 <= frameIndex < frameCount
    ensures (wraps + 1) * frameCount == wraps * frameCount + frameCount
    ensures 0 <= wraps <= loopCount ==>
              (wraps * frameCount + frameIndex + 1 < FramesInAll(frameCount, loopCount)
               <==> wraps < loopCount || frameIndex + 1 < frameCount)
    ensures wraps == loopCount && frameIndex + 1 == frameCount ==>
              wraps * frameCount + frameIndex + 1 == FramesInAll(frameCount, loopCount)
  {
  }

  datatype Event = Tick(now: int, later: int) | Paint(time: int)

  /**
   Any run of timer ticks and paints: the frames shown go round in order. Unless a read fails, playback
   with a loop count c >= 0 finishes after exactly frameCount * (c + 1) frames, and with c < 0 it never
   finishes. Every due tick shows another frame, so after enough of them it does finish.
   */
  method Play(frames: DynamicFrames, events: seq<Event>) returns (ghost due: nat)
    requires frames.Valid() && !frames.finished && frames.CanReturn()
    modifies frames
    ensures forall i :: 0 <= i < |frames.shown| ==> frames.shown[i] == i % frames.frameCount
    ensures frames.loopCount >= 0 ==> |frames.shown| <= FramesInAll(frames.frameCount, frames.loopCount)
    ensures frames.finished ==>
              || frames.ReadFailed()
              || (frames.loopCount >= 0 && |frames.shown| == FramesInAll(frames.frameCount, frames.loopCount))
    ensures !frames.finished ==> |old(frames.shown)| + due <= |frames.shown|
    ensures frames.loopCount >= 0 && FramesInAll(frames.frameCount, frames.loopCount) < |old(frames.shown)| + due ==>
              frames.finished
  {
    due := 0;
    frames.ReturnsIff();
    for k := 0 to |events|
      invariant frames.Valid()
      invariant !frames.finished ==> |old(frames.shown)| + due <= |frames.shown|
    {
      hide Periodic, Ends, ReadableUpTo;
      match events[k] {
        case Tick(now, later) =>
          if frames.Due(now) {
            due := due + 1;
          }
          var _ := frames.Advance(now, later);
        case Paint(time) => frames.OnPaint(time);
      }
    }
    Counting(frames.frameCount, frames.loopCount, frames.wraps, frames.frameIndex);
  }
}
