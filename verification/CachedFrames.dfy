/**
 Playback of an animation whose frames are all decoded: the current frame is a position in a cycle
 of durations, started from a shared timer and advanced by a fixed step.
 */
module CachedAnimation {
  import opened Prelude

  const MAX_START_OFFSET := 60000

  /** How long a frame is kept, from the delay its file states: never less than 20 ms. */
  function FrameDuration(delay: int): (d: int)
    ensures delay <= 10 ==> d == 100
    ensures 10 < delay ==> d == if delay < 20 then 20 else delay
  {
    Max(20, if delay <= 10 then 100 else delay)
  }

  function Total(durations: seq<int>): int {
    if durations == [] then 0 else Total(durations[..|durations| - 1]) + durations[|durations| - 1]
  }

  /** Time from the start of the cycle to the start of frame `i`. */
  function Prefix(durations: seq<int>, i: nat): int
    requires i <= |durations|
  {
    Total(durations[..i])
  }

  ghost predicate Playable(durations: seq<int>) {
    durations != [] && forall i :: 0 <= i < |durations| ==> durations[i] > 0
  }

  /** A frame and the time already spent on it. */
  datatype Playhead = Playhead(index: nat, offset: int)

  /** The playhead's place in the cycle. */
  function Phase(durations: seq<int>, h: Playhead): int
    requires h.index < |durations|
  {
    Prefix(durations, h.index) + h.offset
  }

  /** The frame after `i`, cyclically. */
  function Next(durations: seq<int>, i: nat): (j: nat)
    requires i < |durations|
    ensures j < |durations|
  {
    if i + 1 == |durations| then 0 else i + 1
  }

  /** Steps over every frame that has been shown for longer than its duration. */
  function Settle(durations: seq<int>, h: Playhead): (r: Playhead)
    requires Playable(durations) && h.index < |durations|
    ensures r.index < |durations|
    decreases h.offset
  {
    if h.offset <= durations[h.index] then h
    else Settle(durations, Playhead(Next(durations, h.index), h.offset - durations[h.index]))
  }

  lemma PrefixStep(durations: seq<int>, i: nat)
    requires i < |durations|
    ensures Prefix(durations, i + 1) == Prefix(durations, i) + durations[i]
  {
    assert durations[..i + 1][..i] == durations[..i];
  }

  lemma {:induction false} PrefixMonotone(durations: seq<int>, i: nat, j: nat)
    requires Playable(durations) && i <= j <= |durations|
    ensures Prefix(durations, i) <= Prefix(durations, j)
    ensures i < j ==> Prefix(durations, i) + durations[i] <= Prefix(durations, j)
    decreases j - i
  {
    if i < j {
      PrefixStep(durations, i);
      PrefixMonotone(durations, i + 1, j);
    }
  }

  lemma TotalIsPrefix(durations: seq<int>)
    ensures Prefix(durations, |durations|) == Total(durations)
    ensures Prefix(durations, 0) == 0
  {
    assert durations[..|durations|] == durations;
  }

  lemma TotalPositive(durations: seq<int>)
    requires Playable(durations)
    ensures Total(durations) > 0
  {
  }

  /** Taking off a whole cycle does not change the place in it. */
  lemma WrapOnce(x: int, total: int)
    requires total > 0
    ensures (x - total) % total == x % total
  {
    ModMultiple(x, -1, total);
  }

  /** Settling keeps the place in the cycle and ends within a frame. */
  lemma {:induction false} SettleKeepsPhase(durations: seq<int>, h: Playhead)
    requires Playable(durations) && h.index < |durations|
    ensures var r := Settle(durations, h);
            && Total(durations) > 0
            && Phase(durations, r) % Total(durations) == Phase(durations, h) % Total(durations)
            && r.offset <= durations[r.index]
            && (0 < h.offset ==> 0 < r.offset)
            && (h.offset <= 0 ==> r == h)
    decreases h.offset
  {
    TotalPositive(durations);
    if h.offset > durations[h.index] {
      var j := Next(durations, h.index);
      var h' := Playhead(j, h.offset - durations[h.index]);
      SettleKeepsPhase(durations, h');
      PrefixStep(durations, h.index);
      TotalIsPrefix(durations);
      if h.index + 1 == |durations| {
        WrapOnce(Phase(durations, h), Total(durations));
      }
    }
  }

  lemma EqualResidues(a: int, b: int, total: int)
    requires 0 < total && 0 < a <= total && 0 < b <= total && a % total == b % total
    ensures a == b
  {
  }

  /** Inside a frame, the place in the cycle determines the frame and the time spent on it. */
  lemma PhaseDeterminesFrame(durations: seq<int>, a: Playhead, b: Playhead)
    requires Playable(durations) && a.index < |durations| && b.index < |durations|
    requires 0 < a.offset <= durations[a.index] && 0 < b.offset <= durations[b.index]
    requires Total(durations) > 0
    requires Phase(durations, a) % Total(durations) == Phase(durations, b) % Total(durations)
    ensures a == b
  {
    TotalIsPrefix(durations);
    PrefixMonotone(durations, 0, a.index);
    PrefixMonotone(durations, 0, b.index);
    PrefixMonotone(durations, a.index, |durations|);
    PrefixMonotone(durations, b.index, |durations|);
    EqualResidues(Phase(durations, a), Phase(durations, b), Total(durations));
    if a.index < b.index {
      PrefixMonotone(durations, a.index, b.index);
    } else if b.index < a.index {
      PrefixMonotone(durations, b.index, a.index);
    }
  }

  // ---------------------------------------------------------------------------------------------
  // Copies of an animation on one timer
  // ---------------------------------------------------------------------------------------------

  /** The playhead of a copy that was started at timer position `position`. */
  function Started(durations: seq<int>, position: nat): (h: Playhead)
    requires Playable(durations) && Total(durations) > 0
    ensures h.index < |durations|
  {
    Settle(durations, Playhead(0, Min(position % Total(durations), MAX_START_OFFSET)))
  }

  /** ... and has since been advanced `ticks` times. */
  function AfterTicks(durations: seq<int>, position: nat, ticks: nat): (h: Playhead)
    requires Playable(durations) && Total(durations) > 0
    ensures h.index < |durations|
  {
    if ticks == 0 then Started(durations, position)
    else
      var h := AfterTicks(durations, position, ticks - 1);
      Settle(durations, Playhead(h.index, h.offset + GIF_FRAME_LENGTH))
  }

  /** How far a copy started at `position` is from the beginning of the cycle at that moment. */
  function StartOffset(durations: seq<int>, position: nat): int
    requires Total(durations) > 0
  {
    Min(position % Total(durations), MAX_START_OFFSET)
  }

  /** The place of a copy in the cycle follows the timer from its start offset on. */
  lemma {:induction false} PhaseAfterTicks(durations: seq<int>, position: nat, ticks: nat)
    requires Playable(durations) && Total(durations) > 0
    ensures var h := AfterTicks(durations, position, ticks);
            && Phase(durations, h) % Total(durations)
               == (StartOffset(durations, position) + GIF_FRAME_LENGTH * ticks) % Total(durations)
            && 0 <= h.offset <= durations[h.index]
            && (0 < ticks ==> 0 < h.offset)
  {
    var total := Total(durations);
    if ticks == 0 {
      var h0 := Playhead(0, StartOffset(durations, position));
      TotalIsPrefix(durations);
      SettleKeepsPhase(durations, h0);
    } else {
      var h := AfterTicks(durations, position, ticks - 1);
      PhaseAfterTicks(durations, position, ticks - 1);
      SettleKeepsPhase(durations, Playhead(h.index, h.offset + GIF_FRAME_LENGTH));
      ModAdd(Phase(durations, h), StartOffset(durations, position) + GIF_FRAME_LENGTH * (ticks - 1), GIF_FRAME_LENGTH, total);
    }
  }

  lemma PhaseOfStart(durations: seq<int>, position: nat)
    requires Playable(durations)
    ensures Total(durations) > 0
    ensures var h := AfterTicks(durations, position, 0);
            && 0 <= h.offset <= durations[h.index]
            && Phase(durations, h) % Total(durations) == Min(position % Total(durations), 60_000) % Total(durations)
  {
    TotalPositive(durations);
    PhaseAfterTicks(durations, position, 0);
  }

  /** A copy keeps in step with the timer exactly when its start was not clamped. */
  lemma {:induction false} InStepIffNotClamped(durations: seq<int>, position: nat, ticks: nat)
    requires Playable(durations) && Total(durations) > 0
    ensures Phase(durations, AfterTicks(durations, position, ticks)) % Total(durations)
              == (position + GIF_FRAME_LENGTH * ticks) % Total(durations)
            <==> position % Total(durations) <= MAX_START_OFFSET
  {
    var total := Total(durations);
    var start, run := StartOffset(durations, position), GIF_FRAME_LENGTH * ticks;
    PhaseAfterTicks(durations, position, ticks);
    var place := position % total;
    SmallMod(place, total);
    SmallMod(start, total);
    if place <= MAX_START_OFFSET {
      ModAdd(start, position, run, total);
    } else if (start + run) % total == (position + run) % total {
      ModAdd(start + run, position + run, -run, total);
    }
  }

  /** The two starts fall on places of the cycle from which copies stay in step with each other. */
  predicate StartsInStep(durations: seq<int>, p1: nat, p2: nat)
    requires Total(durations) > 0
  {
    var total := Total(durations);
    (p1 % total <= MAX_START_OFFSET && p2 % total <= MAX_START_OFFSET) || p1 % total == p2 % total
  }

  /** What the clamp takes off a start. */
  function TakenOff(durations: seq<int>, position: nat): (d: int)
    requires Total(durations) > 0
    ensures 0 <= d < Total(durations)
  {
    position % Total(durations) - StartOffset(durations, position)
  }

  /** A copy is behind the timer by what was taken off its start. */
  lemma BehindTheTimer(durations: seq<int>, position: nat, elapsed: nat)
    requires Total(durations) > 0
    ensures (StartOffset(durations, position) + elapsed) % Total(durations)
            == (position + elapsed - TakenOff(durations, position)) % Total(durations)
  {
    var total := Total(durations);
    Euclid(position, total);
    ModMultiple(StartOffset(durations, position) + elapsed, position / total, total);
  }

  lemma ClampIff(durations: seq<int>, p1: nat, p2: nat)
    requires Total(durations) > 0
    ensures TakenOff(durations, p1) == TakenOff(durations, p2) <==> StartsInStep(durations, p1, p2)
  {
  }

  /** At one moment of the timer, two start offsets lead to the same place exactly for starts in step. */
  lemma SamePlaceIff(durations: seq<int>, p1: nat, t1: nat, p2: nat, t2: nat)
    requires Total(durations) > 0 && p1 + t1 == p2 + t2
    ensures (StartOffset(durations, p1) + t1) % Total(durations) == (StartOffset(durations, p2) + t2) % Total(durations)
            <==> StartsInStep(durations, p1, p2)
  {
    BehindTheTimer(durations, p1, t1);
    BehindTheTimer(durations, p2, t2);
    ClampIff(durations, p1, p2);
    var total, now := Total(durations), p1 + t1;
    var c1, c2 := TakenOff(durations, p1), TakenOff(durations, p2);
    hide *;
    SmallMod(c1, total);
    SmallMod(c2, total);
    if (now - c1) % total == (now - c2) % total {
      ModAdd(now - c1, now - c2, c1 + c2 - now, total);
    }
  }

  /**
   Two copies of one animation, started at any two ticks of the same timer, show the same frame and
   will change it at the same tick exactly when their starts are in step and, for a copy that has not
   been advanced yet, its start was not at the beginning of the cycle.
   */
  lemma {:induction false} CopiesAgree(durations: seq<int>, p1: nat, k1: nat, p2: nat, k2: nat)
    requires Playable(durations) && Total(durations) > 0
    requires 0 < k2 && p1 + GIF_FRAME_LENGTH * k1 == p2 + GIF_FRAME_LENGTH * k2
    ensures AfterTicks(durations, p1, k1) == AfterTicks(durations, p2, k2)
            <==> StartsInStep(durations, p1, p2) && (0 < k1 || p1 % Total(durations) != 0)
  {
    var a, b := AfterTicks(durations, p1, k1), AfterTicks(durations, p2, k2);
    PhaseAfterTicks(durations, p1, k1);
    PhaseAfterTicks(durations, p2, k2);
    SamePlaceIff(durations, p1, GIF_FRAME_LENGTH * k1, p2, GIF_FRAME_LENGTH * k2);
    StartedOffset(durations, p1);
    hide *;
    if 0 < a.offset && Phase(durations, a) % Total(durations) == Phase(durations, b) % Total(durations) {
      PhaseDeterminesFrame(durations, a, b);
    }
  }

  /** A fresh copy has spent no time on its frame exactly if it starts at the beginning of the cycle. */
  lemma StartedOffset(durations: seq<int>, position: nat)
    requires Playable(durations) && Total(durations) > 0
    ensures AfterTicks(durations, position, 0).offset == 0 <==> position % Total(durations) == 0
  {
    SettleKeepsPhase(durations, Playhead(0, StartOffset(durations, position)));
  }

  /** Before its first tick a copy can still disagree: at a cycle boundary it starts on the first frame. */
  lemma FreshCopyCanDiffer()
    ensures var d := [20, 20];
            && Playable(d) && Total(d) == 40
            && AfterTicks(d, 0, 2) == Playhead(1, 20) && AfterTicks(d, 40, 0) == Playhead(0, 0)
  {
  }

  // ---------------------------------------------------------------------------------------------
  // The player
  // ---------------------------------------------------------------------------------------------

  /** The cyclic successor as the code computes it. */
  lemma WrapIndex(i: nat, n: nat)
    requires i < n
    ensures (i + 1) % n == if i + 1 == n then 0 else i + 1
  {
  }

  class CachedFrames {
    const durations: seq<int>
    var index: nat
    var durationOffset: int

    ghost predicate Valid()
      reads this
    {
      Playable(durations) && index < |durations|
    }

    function Head(): Playhead
      reads this
    {
      Playhead(index, durationOffset)
    }

    /** From the delays stated in the image file. */
    constructor (delays: seq<int>)
      requires delays != []
      ensures Valid() && Head() == Playhead(0, 0)
      ensures |durations| == |delays| && forall i :: 0 <= i < |delays| ==> durations[i] == FrameDuration(delays[i])
    {
      durations := seq(|delays|, i requires 0 <= i < |delays| => FrameDuration(delays[i]));
      index, durationOffset := 0, 0;
    }

    method TotalLength() returns (total: int)
      ensures total == Total(durations)
    {
      total := 0;
      for i := 0 to |durations|
        invariant total == Prefix(durations, i)
      {
        PrefixStep(durations, i);
        total := total + durations[i];
      }
      TotalIsPrefix(durations);
    }

    method Start(position: nat)
      requires Valid() && Head() == Playhead(0, 0)
      modifies this
      ensures Valid() && Total(durations) > 0
      ensures Head() == if |durations| > 1 then AfterTicks(durations, position, 0) else Playhead(0, 0)
      ensures |durations| > 1 ==>
                && durationOffset <= durations[index]
                && Phase(durations, Head()) % Total(durations)
                   == Min(position % Total(durations), 60_000) % Total(durations)
    {
      PhaseOfStart(durations, position);
      TotalPositive(durations);
      if |durations| <= 1 {
        return;
      }
      var totalLength := TotalLength();
      durationOffset := if totalLength == 0 then 0 else Min(position % totalLength, MAX_START_OFFSET);
      ProcessOffset();
    }

    /** One tick; with `AfterTicks` on the old state this is its next value. */
    method Advance(ghost position: nat, ghost ticks: nat)
      requires Valid() && Total(durations) > 0
      modifies this
      ensures Valid()
      ensures Head() == Settle(durations, Playhead(old(index), old(durationOffset) + GIF_FRAME_LENGTH))
      ensures durationOffset <= durations[index]
      ensures Phase(durations, Head()) % Total(durations)
              == (Phase(durations, old(Head())) + GIF_FRAME_LENGTH) % Total(durations)
      ensures old(Head()) == AfterTicks(durations, position, ticks) ==> Head() == AfterTicks(durations, position, ticks + 1)
    {
      durationOffset := durationOffset + GIF_FRAME_LENGTH;
      SettleKeepsPhase(durations, Head());
      ProcessOffset();
    }

    method ProcessOffset()
      requires Valid()
      modifies this
      ensures Valid() && Head() == Settle(durations, old(Head()))
    {
      while true
        invariant Valid() && Settle(durations, Head()) == Settle(durations, old(Head()))
        decreases durationOffset
      {
        SmallMod(index, |durations|);
        index := index % |durations|;
        WrapIndex(index, |durations|);
        if durationOffset > durations[index] {
          durationOffset := durationOffset - durations[index];
          index := (index + 1) % |durations|;
        } else {
          break;
        }
      }
    }
  }
}
