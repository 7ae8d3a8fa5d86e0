/**
 Replacements in the bounded message log: by needle, by position in the ring and by hint. They extend the
 refinement of the ring to runs of locked steps of every kind.
 */
module LogReplacements {
  import opened Prelude
  import opened LimitedQueues

  /** A locked step of any kind; positions and hints count from the front of the ring. */
  datatype Step<T> =
    | Plain(op: Op<T>)
    | ReplaceNeedle(needle: T, replacement: T)
    | ReplacePosition(index: nat, replacement: T)
    | ReplaceHinted(hint: nat, needle: T, replacement: T)

  function StepBounded<T(==)>(limit: nat, s: seq<T>, step: Step<T>): (r: seq<T>)
    requires 0 < limit && |s| <= limit
    ensures |r| <= limit
  {
    match step
    case Plain(op) => ApplyBounded(limit, s, op)
    case ReplaceNeedle(needle, x) => Replaced(s, IndexOf(s, needle), x)
    case ReplacePosition(i, x) => Replaced(s, i, x)
    case ReplaceHinted(hint, needle, x) => Replaced(s, HintedIndex(s, hint, needle), x)
  }

  /** In the log a position is `limit` elements or less from the end, and a hint is of no use. */
  function StepUnbounded<T(==)>(limit: nat, s: seq<T>, step: Step<T>): seq<T> {
    match step
    case Plain(op) => ApplyUnbounded(s, op)
    case ReplaceNeedle(needle, x) => Replaced(s, IndexOf(s, needle), x)
    case ReplacePosition(i, x) => Replaced(s, |s| - |Last(s, limit)| + i, x)
    case ReplaceHinted(_, needle, x) => Replaced(s, IndexOf(s, needle), x)
  }

  function RunStepsBounded<T(==)>(limit: nat, s: seq<T>, steps: seq<Step<T>>): (r: seq<T>)
    requires 0 < limit && |s| <= limit
    ensures |r| <= limit
    decreases |steps|
  {
    if steps == [] then s else RunStepsBounded(limit, StepBounded(limit, s, steps[0]), steps[1..])
  }

  function RunStepsUnbounded<T(==)>(limit: nat, s: seq<T>, steps: seq<Step<T>>): seq<T>
    decreases |steps|
  {
    if steps == [] then s else RunStepsUnbounded(limit, StepUnbounded(limit, s, steps[0]), steps[1..])
  }

  /** The items a step brings in. */
  function Brought<T>(step: Step<T>): seq<T> {
    match step
    case Plain(op) => NewItems(op)
    case ReplaceNeedle(_, x) => [x]
    case ReplacePosition(_, x) => [x]
    case ReplaceHinted(_, _, x) => [x]
  }

  function AllBrought<T>(steps: seq<Step<T>>): seq<T> {
    if steps == [] then [] else Brought(steps[0]) + AllBrought(steps[1..])
  }

  /** The log stays free of duplicates all along. */
  ghost predicate DistinctAllAlong<T>(limit: nat, s: seq<T>, steps: seq<Step<T>>)
    decreases |steps|
  {
    Distinct(s) && (steps != [] ==> DistinctAllAlong(limit, StepUnbounded(limit, s, steps[0]), steps[1..]))
  }

  /** A replacement at log position `k`, which the ring has at `r` or not at all. */
  lemma ReplacedInTail<T>(limit: nat, s: seq<T>, k: int, r: int, x: T)
    requires var drop := |s| - |Last(s, limit)|;
             if drop <= k < |s| then r == k - drop else !(0 <= r < |Last(s, limit)|)
    ensures Replaced(Last(s, limit), r, x) == Last(Replaced(s, k, x), limit)
  {
  }

  /** One locked step of any kind commutes with looking at the last `limit` elements. */
  lemma {:induction false} AnyStepRefines<T>(limit: nat, s: seq<T>, step: Step<T>)
    requires 0 < limit && Distinct(s)
    ensures StepBounded(limit, Last(s, limit), step) == Last(StepUnbounded(limit, s, step), limit)
  {
    hide Replaced;
    var ring := Last(s, limit);
    match step {
      case Plain(op) => StepRefines(limit, s, op);
      case ReplaceNeedle(needle, x) => NeedleReplaced(limit, s, needle, x);
      case ReplacePosition(i, x) => ReplacedInTail(limit, s, |s| - |ring| + i, i, x);
      case ReplaceHinted(hint, needle, x) =>
        HintMakesNoDifference(limit, s, hint, needle, x);
        NeedleReplaced(limit, s, needle, x);
    }
  }

  lemma NeedleReplaced<T>(limit: nat, s: seq<T>, needle: T, x: T)
    requires Distinct(s)
    ensures Replaced(Last(s, limit), IndexOf(Last(s, limit), needle), x) == Last(Replaced(s, IndexOf(s, needle), x), limit)
  {
    DistinctIsNotHidden(limit, s, needle);
    NeedleInTail(limit, s, needle);
    hide Replaced, Hidden, Last;
    ReplacedInTail(limit, s, IndexOf(s, needle), IndexOf(Last(s, limit), needle), x);
  }

  lemma HintMakesNoDifference<T>(limit: nat, s: seq<T>, hint: nat, needle: T, x: T)
    requires Distinct(s)
    ensures var ring := Last(s, limit);
            Replaced(ring, HintedIndex(ring, hint, needle), x) == Replaced(ring, IndexOf(ring, needle), x)
  {
    var ring := Last(s, limit);
    assert IndexOf(ring, needle) < |ring| ==> ring[IndexOf(ring, needle)] == needle;
  }

  /**
   Over every run of locked steps of any kind on distinct messages, replacements by needle, by position
   and by hint included, the ring is the last `limit` elements of the log.
   */
  lemma {:induction false} AnyRunRefines<T>(limit: nat, s: seq<T>, steps: seq<Step<T>>)
    requires 0 < limit && DistinctAllAlong(limit, s, steps)
    ensures RunStepsBounded(limit, Last(s, limit), steps) == Last(RunStepsUnbounded(limit, s, steps), limit)
    decreases |steps|
  {
    if steps != [] {
      AnyStepRefines(limit, s, steps[0]);
      AnyRunRefines(limit, StepUnbounded(limit, s, steps[0]), steps[1..]);
    }
  }

  lemma ReplacedAddsAtMost<T>(s: seq<T>, i: int, x: T)
    ensures multiset(Replaced(s, i, x)) <= multiset(s) + multiset([x])
  {
  }

  lemma StepAddsAtMostNew<T>(limit: nat, s: seq<T>, step: Step<T>)
    ensures multiset(StepUnbounded(limit, s, step)) <= multiset(s) + multiset(Brought(step))
  {
    match step {
      case Plain(op) => ApplyAddsAtMostNew(s, op);
      case ReplaceNeedle(needle, x) => ReplacedAddsAtMost(s, IndexOf(s, needle), x);
      case ReplacePosition(i, x) => ReplacedAddsAtMost(s, |s| - |Last(s, limit)| + i, x);
      case ReplaceHinted(_, needle, x) => ReplacedAddsAtMost(s, IndexOf(s, needle), x);
    }
  }

  /** A run that only brings in pairwise distinct new objects never makes the log hold one twice. */
  lemma {:induction false} DistinctStepsStayDistinct<T>(limit: nat, s: seq<T>, steps: seq<Step<T>>)
    requires forall x :: multiset(s)[x] + multiset(AllBrought(steps))[x] <= 1
    ensures DistinctAllAlong(limit, s, steps)
    decreases |steps|
  {
    assert forall x :: multiset(s)[x] <= 1;
    DistinctMultiset(s);
    if steps != [] {
      assert multiset(AllBrought(steps)) == multiset(Brought(steps[0])) + multiset(AllBrought(steps[1..]));
      StepAddsAtMostNew(limit, s, steps[0]);
      hide StepUnbounded, Brought, Distinct;
      DistinctStepsStayDistinct(limit, StepUnbounded(limit, s, steps[0]), steps[1..]);
    }
  }
}
