/**
 The bounded message log: a ring buffer of fixed capacity that accepts items at both ends and
 next to a needle. The specification side says what the ring holds after each operation and what
 an unbounded sequence would hold after the same operation; the theorem is that the ring is
 always the last `limit` elements of the unbounded sequence.
 */
module LimitedQueues {
  import opened Prelude

  /** The last `limit` elements of `s`. */
  function Last<T>(s: seq<T>, limit: nat): seq<T> {
    if |s| <= limit then s else s[|s| - limit..]
  }

  datatype Op<T> =
    | PushBack(item: T)
    | PushFront(items: seq<T>)
    | InsertBefore(needle: T, item: T)
    | InsertAfter(needle: T, item: T)
    | Clear

  // ---------------------------------------------------------------------------------------------
  // What the ring does
  // ---------------------------------------------------------------------------------------------

  /**
   `boost::circular_buffer::insert`: with room the item is simply placed; in a full buffer the front
   element is dropped to make room, and nothing happens at all when the position is `begin()`.
   */
  function RingInsert<T>(limit: nat, s: seq<T>, i: nat, x: T): seq<T>
    requires i <= |s|
  {
    if |s| < limit then InsertAt(s, i, x)
    else if i == 0 then s
    else InsertAt(s, i, x)[1..]
  }

  function RingInsertBy<T>(limit: nat, s: seq<T>, i: nat, offset: nat, x: T): seq<T>
    requires offset <= 1
  {
    if i < |s| then RingInsert(limit, s, i + offset, x) else s
  }

  function RingInsertNextTo<T(==)>(limit: nat, s: seq<T>, needle: T, offset: nat, x: T): seq<T>
    requires offset <= 1
  {
    RingInsertBy(limit, s, IndexOf(s, needle), offset, x)
  }

  /** The items `pushFront` still has room for: the last ones. */
  function Fitting<T>(limit: nat, s: seq<T>, items: seq<T>): seq<T>
    requires |s| <= limit
  {
    items[|items| - Min(|items|, limit - |s|)..]
  }

  function ApplyBounded<T(==)>(limit: nat, s: seq<T>, op: Op<T>): (r: seq<T>)
    requires 0 < limit && |s| <= limit
    ensures |r| <= limit
  {
    match op
    case PushBack(x) => if |s| < limit then s + [x] else s[1..] + [x]
    case PushFront(items) => Fitting(limit, s, items) + s
    case InsertBefore(needle, x) => RingInsertNextTo(limit, s, needle, 0, x)
    case InsertAfter(needle, x) => RingInsertNextTo(limit, s, needle, 1, x)
    case Clear => []
  }

  function RunBounded<T(==)>(limit: nat, s: seq<T>, ops: seq<Op<T>>): (r: seq<T>)
    requires 0 < limit && |s| <= limit
    ensures |r| <= limit
    decreases |ops|
  {
    if ops == [] then s else RunBounded(limit, ApplyBounded(limit, s, ops[0]), ops[1..])
  }

  // ---------------------------------------------------------------------------------------------
  // What an unbounded log would do
  // ---------------------------------------------------------------------------------------------

  function InsertBy<T>(s: seq<T>, i: nat, offset: nat, x: T): seq<T>
    requires offset <= 1
  {
    if i < |s| then InsertAt(s, i + offset, x) else s
  }

  /** `offset` is 0 for directly before the needle and 1 for directly after it. */
  function InsertNextTo<T(==)>(s: seq<T>, needle: T, offset: nat, x: T): seq<T>
    requires offset <= 1
  {
    InsertBy(s, IndexOf(s, needle), offset, x)
  }

  function ApplyUnbounded<T(==)>(s: seq<T>, op: Op<T>): seq<T> {
    match op
    case PushBack(x) => s + [x]
    case PushFront(items) => items + s
    case InsertBefore(needle, x) => InsertNextTo(s, needle, 0, x)
    case InsertAfter(needle, x) => InsertNextTo(s, needle, 1, x)
    case Clear => []
  }

  function RunUnbounded<T(==)>(s: seq<T>, ops: seq<Op<T>>): seq<T>
    decreases |ops|
  {
    if ops == [] then s else RunUnbounded(ApplyUnbounded(s, ops[0]), ops[1..])
  }

  /** The items an operation brings in. */
  function NewItems<T>(op: Op<T>): seq<T> {
    match op
    case PushBack(x) => [x]
    case PushFront(items) => items
    case InsertBefore(_, x) => [x]
    case InsertAfter(_, x) => [x]
    case Clear => []
  }

  /** The log and everything a run brings into it are pairwise distinct objects. */
  ghost predicate FreshRun<T>(s: seq<T>, ops: seq<Op<T>>)
    decreases |ops|
  {
    && Distinct(s)
    && (ops != [] ==>
          && Distinct(NewItems(ops[0]))
          && (forall x :: x in NewItems(ops[0]) ==> x !in s)
          && FreshRun(ApplyUnbounded(s, ops[0]), ops[1..]))
  }

  // ---------------------------------------------------------------------------------------------
  // The ring is the tail of the unbounded log
  // ---------------------------------------------------------------------------------------------

  /** Before the ring's front, an insertion is invisible to the ring. */
  lemma InsertIntoEvicted<T>(limit: nat, s: seq<T>, i: nat, x: T)
    requires i <= |s| - limit
    ensures Last(InsertAt(s, i, x), limit) == Last(s, limit)
  {
  }

  /** Behind the front of a full ring, the item pushes the front out on both sides. */
  lemma InsertIntoFull<T>(limit: nat, s: seq<T>, i: nat, x: T)
    requires 0 < limit && |s| - limit < i <= |s|
    ensures limit <= |s| ==>
              InsertAt(s[|s| - limit..], i - (|s| - limit), x)[1..] == Last(InsertAt(s, i, x), limit)
  {
    if limit <= |s| {
      InsertAtDrop(s, i, x, |s| - limit);
      InsertAtIndex(s, i, x);
      hide InsertAt;
      CutTwice(InsertAt(s, i, x), |s| - limit, |s| - limit + 1);
    }
  }

  lemma RingInsertIs<T>(limit: nat, s: seq<T>, i: nat, x: T)
    requires i <= |s|
    ensures RingInsert(limit, s, i, x) ==
            if |s| < limit then InsertAt(s, i, x) else if i == 0 then s else InsertAt(s, i, x)[1..]
    ensures |InsertAt(s, i, x)| == |s| + 1
  {
  }

  lemma LastIs<T>(limit: nat, s: seq<T>)
    ensures Last(s, limit) == if |s| <= limit then s else s[|s| - limit..]
    ensures limit <= |s| ==> Last(s, limit) == s[|s| - limit..]
  {
  }

  /** At or behind the ring's front, inserting and cutting to size commute. */
  lemma InsertIntoTail<T>(limit: nat, s: seq<T>, i: nat, ringIndex: nat, x: T)
    requires 0 < limit && i <= |s| && i == ringIndex + |s| - |Last(s, limit)|
    ensures RingInsert(limit, Last(s, limit), ringIndex, x) == Last(InsertAt(s, i, x), limit)
  {
    LastIs(limit, s);
    hide *;
    RingInsertIs(limit, Last(s, limit), ringIndex, x);
    RingInsertIs(limit, s, i, x);
    if |s| < limit {
      LastIs(limit, InsertAt(s, i, x));
    } else if ringIndex == 0 {
      InsertIntoEvicted(limit, s, i, x);
    } else {
      InsertIntoFull(limit, s, i, x);
    }
  }

  /** The first occurrence of the needle is evicted, but the ring holds another one. */
  predicate Hidden<T(==)>(limit: nat, s: seq<T>, needle: T) {
    IndexOf(s, needle) < |s| - |Last(s, limit)| && needle in Last(s, limit)
  }

  /** Where a needle of the log sits in the ring. */
  lemma NeedleInTail<T>(limit: nat, s: seq<T>, needle: T)
    requires !Hidden(limit, s, needle)
    ensures var ring := Last(s, limit);
            var drop := |s| - |ring|;
            var k := IndexOf(s, needle);
            IndexOf(ring, needle) == if drop <= k then k - drop else |ring|
  {
    var ring, k := Last(s, limit), IndexOf(s, needle);
    var drop := |s| - |ring|;
    assert forall j :: 0 <= j < |ring| ==> ring[j] == s[j + drop];
    if drop <= k < |s| {
      assert ring[k - drop] == needle;
    }
  }

  /** In a log without duplicates an evicted needle is nowhere in the ring. */
  lemma DistinctIsNotHidden<T>(limit: nat, s: seq<T>, needle: T)
    requires Distinct(s)
    ensures !Hidden(limit, s, needle)
  {
    var ring, k := Last(s, limit), IndexOf(s, needle);
    var drop := |s| - |ring|;
    assert forall j :: 0 <= j < |ring| ==> ring[j] == s[j + drop];
  }

  lemma AppendToTail<T>(limit: nat, s: seq<T>, x: T)
    requires 0 < limit
    ensures ApplyBounded(limit, Last(s, limit), PushBack(x)) == Last(s + [x], limit)
  {
  }

  lemma LastOfConcat<T>(limit: nat, items: seq<T>, s: seq<T>)
    ensures Last(items + s, limit) ==
            if |s| >= limit then Last(s, limit) else items[Max(0, |items| + |s| - limit)..] + s
  {
    if |items| + |s| > limit {
      EndOfConcat(items, s, |items| + |s| - limit);
    }
  }

  lemma FittingIs<T>(limit: nat, s: seq<T>, items: seq<T>)
    requires |s| <= limit
    ensures Fitting(limit, s, items) == if |s| == limit then [] else items[Max(0, |items| + |s| - limit)..]
  {
  }

  lemma PrependToTail<T>(limit: nat, s: seq<T>, items: seq<T>)
    requires 0 < limit
    ensures ApplyBounded(limit, Last(s, limit), PushFront(items)) == Last(items + s, limit)
  {
    LastOfConcat(limit, items, s);
    FittingIs(limit, Last(s, limit), items);
    LastIs(limit, s);
    hide Last, Fitting;
    if |s| >= limit {
      assert [] + Last(s, limit) == Last(s, limit);
    }
  }

  /** One locked step on the ring is the same step on the unbounded log, seen through `Last`. */
  lemma {:induction false} StepRefines<T>(limit: nat, s: seq<T>, op: Op<T>)
    requires 0 < limit && Distinct(s)
    ensures ApplyBounded(limit, Last(s, limit), op) == Last(ApplyUnbounded(s, op), limit)
  {
    match op {
      case PushBack(x) => AppendToTail(limit, s, x);
      case PushFront(items) => PrependToTail(limit, s, items);
      case InsertBefore(needle, x) => InsertRefines(limit, s, needle, x, 0);
      case InsertAfter(needle, x) => InsertRefines(limit, s, needle, x, 1);
      case Clear =>
    }
  }

  /** A needle at `k` in the log and at `r` in the ring; either may be the length, for "not found". */
  lemma InsertByRefines<T>(limit: nat, s: seq<T>, k: nat, r: nat, offset: nat, x: T)
    requires 0 < limit && offset <= 1 && k <= |s|
    requires r == if |s| - |Last(s, limit)| <= k then k - (|s| - |Last(s, limit)|) else |Last(s, limit)|
    ensures RingInsertBy(limit, Last(s, limit), r, offset, x) == Last(InsertBy(s, k, offset, x), limit)
  {
    hide InsertAt, RingInsert;
    if k == |s| {
    } else if |s| - |Last(s, limit)| <= k {
      InsertIntoTail(limit, s, k + offset, r + offset, x);
    } else {
      InsertIntoEvicted(limit, s, k + offset, x);
    }
  }

  lemma {:induction false} InsertRefines<T>(limit: nat, s: seq<T>, needle: T, x: T, offset: nat)
    requires 0 < limit && Distinct(s) && offset <= 1
    ensures RingInsertNextTo(limit, Last(s, limit), needle, offset, x) == Last(InsertNextTo(s, needle, offset, x), limit)
  {
    DistinctIsNotHidden(limit, s, needle);
    InsertRefinesUnlessHidden(limit, s, needle, x, offset);
  }

  lemma {:induction false} InsertRefinesUnlessHidden<T>(limit: nat, s: seq<T>, needle: T, x: T, offset: nat)
    requires 0 < limit && offset <= 1 && !Hidden(limit, s, needle)
    ensures RingInsertNextTo(limit, Last(s, limit), needle, offset, x) == Last(InsertNextTo(s, needle, offset, x), limit)
  {
    NeedleInTail(limit, s, needle);
    hide Hidden, Last, RingInsertBy, InsertBy;
    InsertByRefines(limit, s, IndexOf(s, needle), IndexOf(Last(s, limit), needle), offset, x);
  }

  /**
   Inserting a new item next to a needle that may occur several times: ring and log part ways exactly
   when the first occurrence is evicted and the ring holds a later one, except at its very front when
   the item goes before it.
   */
  lemma {:induction false} InsertRefinesIff<T>(limit: nat, s: seq<T>, needle: T, x: T, offset: nat)
    requires 0 < limit && offset <= 1 && x !in s
    ensures RingInsertNextTo(limit, Last(s, limit), needle, offset, x) == Last(InsertNextTo(s, needle, offset, x), limit)
            <==> !(Hidden(limit, s, needle) && 0 < IndexOf(Last(s, limit), needle) + offset)
  {
    if Hidden(limit, s, needle) {
      LogTakesIt(limit, s, needle, x, offset);
      RingTakesIt(limit, s, needle, x, offset);
      assert x !in Last(s, limit);
      hide *;
    } else {
      InsertRefinesUnlessHidden(limit, s, needle, x, offset);
    }
  }

  /** The log takes the item where the ring does not reach ... */
  lemma LogTakesIt<T>(limit: nat, s: seq<T>, needle: T, x: T, offset: nat)
    requires offset <= 1 && Hidden(limit, s, needle)
    ensures Last(InsertNextTo(s, needle, offset, x), limit) == Last(s, limit)
  {
    HiddenPlaces(limit, s, needle);
    hide *;
    NextToIs(s, needle, offset, x, limit);
    InsertIntoEvicted(limit, s, IndexOf(s, needle) + offset, x);
  }

  /** ... and the ring takes it unless that is its front. */
  lemma RingTakesIt<T>(limit: nat, s: seq<T>, needle: T, x: T, offset: nat)
    requires offset <= 1 && Hidden(limit, s, needle)
    ensures var ring, at := Last(s, limit), IndexOf(Last(s, limit), needle) + offset;
            if at == 0 then RingInsertNextTo(limit, ring, needle, offset, x) == ring
            else x in RingInsertNextTo(limit, ring, needle, offset, x)
  {
    HiddenPlaces(limit, s, needle);
    hide *;
    var ring := Last(s, limit);
    NextToIs(ring, needle, offset, x, limit);
    FullRingTakes(limit, ring, IndexOf(ring, needle) + offset, x);
  }

  lemma HiddenPlaces<T>(limit: nat, s: seq<T>, needle: T)
    requires Hidden(limit, s, needle)
    ensures |Last(s, limit)| == limit && IndexOf(Last(s, limit), needle) < limit
    ensures IndexOf(s, needle) < |s| && IndexOf(s, needle) + 1 <= |s| - limit
  {
  }

  /** Next to a needle that is there. */
  lemma NextToIs<T>(s: seq<T>, needle: T, offset: nat, x: T, limit: nat)
    requires offset <= 1 && IndexOf(s, needle) < |s|
    ensures InsertNextTo(s, needle, offset, x) == InsertAt(s, IndexOf(s, needle) + offset, x)
    ensures RingInsertNextTo(limit, s, needle, offset, x) == RingInsert(limit, s, IndexOf(s, needle) + offset, x)
  {
  }

  lemma FullRingTakes<T>(limit: nat, ring: seq<T>, at: nat, x: T)
    requires |ring| == limit && at <= limit
    ensures if at == 0 then RingInsert(limit, ring, at, x) == ring else x in RingInsert(limit, ring, at, x)
  {
    if at > 0 {
      assert InsertAt(ring, at, x)[1..][at - 1] == x;
    }
  }

  /**
   Over every run of locked steps (any interleaving of any number of threads is one such run, and
   needles may have been evicted or never present), the ring holds exactly the last `limit` elements
   of the log the same steps would have built without a bound.
   */
  lemma {:induction false} RunRefines<T>(limit: nat, s: seq<T>, ops: seq<Op<T>>)
    requires 0 < limit && FreshRun(s, ops)
    ensures RunBounded(limit, Last(s, limit), ops) == Last(RunUnbounded(s, ops), limit)
    decreases |ops|
  {
    if ops != [] {
      StepRefines(limit, s, ops[0]);
      RunRefines(limit, ApplyUnbounded(s, ops[0]), ops[1..]);
    }
  }

  /** Everything a run brings in, in order. */
  function AllNewItems<T>(ops: seq<Op<T>>): seq<T> {
    if ops == [] then [] else NewItems(ops[0]) + AllNewItems(ops[1..])
  }

  lemma ApplyAddsAtMostNew<T>(s: seq<T>, op: Op<T>)
    ensures multiset(ApplyUnbounded(s, op)) <= multiset(s) + multiset(NewItems(op))
  {
    match op {
      case InsertBefore(needle, x) => assert s == s[..IndexOf(s, needle)] + s[IndexOf(s, needle)..];
      case InsertAfter(needle, x) =>
        if IndexOf(s, needle) < |s| {
          assert s == s[..IndexOf(s, needle) + 1] + s[IndexOf(s, needle) + 1..];
        }
      case _ =>
    }
  }

  /** A run over pairwise distinct objects, all of them new to the log, is fresh at every step. */
  lemma {:induction false} DistinctRunIsFresh<T>(s: seq<T>, ops: seq<Op<T>>)
    requires forall x :: multiset(s)[x] + multiset(AllNewItems(ops))[x] <= 1
    ensures FreshRun(s, ops)
    decreases |ops|
  {
    assert forall x :: multiset(s)[x] <= 1;
    DistinctMultiset(s);
    if ops != [] {
      var new_ := NewItems(ops[0]);
      assert multiset(AllNewItems(ops)) == multiset(new_) + multiset(AllNewItems(ops[1..]));
      assert forall x :: multiset(s)[x] + multiset(new_)[x] + multiset(AllNewItems(ops[1..]))[x] <= 1;
      DistinctMultiset(new_);
      assert forall x :: x in new_ ==> multiset(new_)[x] >= 1 && multiset(s)[x] == 0;
      ApplyAddsAtMostNew(s, ops[0]);
      DistinctRunIsFresh(ApplyUnbounded(s, ops[0]), ops[1..]);
    }
  }

  lemma {:induction false} RunBoundedConcat<T>(limit: nat, s: seq<T>, a: seq<Op<T>>, b: seq<Op<T>>)
    requires 0 < limit && |s| <= limit
    ensures RunBounded(limit, s, a + b) == RunBounded(limit, RunBounded(limit, s, a), b)
    decreases |a|
  {
    if a == [] {
      assert a + b == b;
    } else {
      assert (a + b)[1..] == a[1..] + b;
      RunBoundedConcat(limit, ApplyBounded(limit, s, a[0]), a[1..], b);
    }
  }

  /** Fresh runs keep the unbounded log free of duplicates. */
  lemma {:induction false} FreshRunStaysDistinct<T>(s: seq<T>, ops: seq<Op<T>>)
    requires FreshRun(s, ops)
    ensures Distinct(RunUnbounded(s, ops))
    decreases |ops|
  {
    if ops != [] {
      FreshRunStaysDistinct(ApplyUnbounded(s, ops[0]), ops[1..]);
    }
  }

  /** Distinctness is needed: with a needle that occurs twice the ring and the log part ways. */
  lemma DuplicateNeedleDiverges()
    ensures var s := [7, 8, 7];
            ApplyBounded(2, Last(s, 2), InsertBefore(7, 9)) != Last(ApplyUnbounded(s, InsertBefore(7, 9)), 2)
  {
    var s := [7, 8, 7];
    assert Last(s, 2) == [8, 7];
    assert [8, 7][0] != 7 && [8, 7][1] == 7;
    assert ApplyBounded(2, [8, 7], InsertBefore(7, 9)) == [9, 7];
    assert ApplyUnbounded(s, InsertBefore(7, 9)) == [9, 7, 8, 7];
  }

  /** The position `replaceItem` with a hint settles on, or -1. */
  function HintedIndex<T(==)>(s: seq<T>, hint: nat, needle: T): int {
    if hint < |s| && s[hint] == needle then hint
    else if needle in s then IndexOf(s, needle)
    else -1
  }

  /** `s` with `x` in place of the element at `i`, if there is one. */
  function Replaced<T>(s: seq<T>, i: int, x: T): (r: seq<T>)
    ensures |r| == |s|
  {
    if 0 <= i < |s| then s[i := x] else s
  }

  // ---------------------------------------------------------------------------------------------
  // The ring itself
  // ---------------------------------------------------------------------------------------------

  /** Cell of the `i`-th element of a ring that starts at `head`. */
  function Slot(limit: nat, head: nat, i: nat): nat {
    if head + i < limit then head + i else head + i - limit
  }

  /** A suffix grows to the front by one element, a slice to the back. */
  lemma SuffixStep<T>(items: seq<T>, b: nat, s: seq<T>)
    requires b < |items|
    ensures [items[b]] + (items[b + 1..] + s) == items[b..] + s
  {
  }

  lemma SliceStep<T>(items: seq<T>, from: nat, f: nat)
    requires from <= f < |items|
    ensures items[from..f] + [items[f]] == items[from..f + 1]
  {
  }

  class LimitedQueue<T(==,0)> {
    const limit: nat
    const cells: array<T>
    var head: nat
    var count: nat
    /** Front to back. */
    ghost var contents: seq<T>

    ghost predicate Valid()
      reads this, cells
    {
      && 0 < limit == cells.Length && head < limit && |contents| == count <= limit
      && forall i :: 0 <= i < count ==> contents[i] == cells[Slot(limit, head, i)]
    }

    constructor (limit: nat)
      requires 0 < limit
      ensures Valid() && fresh(cells) && this.limit == limit && contents == []
    {
      this.limit := limit;
      cells := new T[limit];
      head, count, contents := 0, 0, [];
    }

    method Get(index: nat) returns (r: Option<T>)
      requires Valid()
      ensures r == if index < |contents| then Some(contents[index]) else None
    {
      if index >= count {
        return None;
      }
      return Some(cells[Slot(limit, head, index)]);
    }

    method Clear()
      requires Valid()
      modifies this
      ensures Valid() && contents == []
    {
      head, count, contents := 0, 0, [];
    }

    /** Appends; a full ring gives up its front element, which is handed back. */
    method PushBack(item: T) returns (full: bool, deleted: Option<T>)
      requires Valid()
      modifies this, cells
      ensures Valid() && contents == ApplyBounded(limit, old(contents), Op.PushBack(item))
      ensures full == (|old(contents)| == limit)
      ensures deleted == if full then Some(old(contents)[0]) else None
    {
      full := count == limit;
      deleted := None;
      if full {
        deleted := Some(cells[head]);
        PopFront();
      }
      cells[Slot(limit, head, count)] := item;
      count, contents := count + 1, contents + [item];
    }

    /** One step towards the front: the cell before `head` receives the item. */
    method PushFrontOne(item: T)
      requires Valid() && count < limit
      modifies this, cells
      ensures Valid() && contents == [item] + old(contents)
    {
      head := if head == 0 then limit - 1 else head - 1;
      cells[head] := item;
      count, contents := count + 1, [item] + contents;
    }

    /** Prepends as many trailing items as there is room for and returns them in order. */
    method PushFront(items: seq<T>) returns (pushed: seq<T>)
      requires Valid()
      modifies this, cells
      ensures Valid() && contents == ApplyBounded(limit, old(contents), Op.PushFront(items))
      ensures pushed == Fitting(limit, old(contents), items)
    {
      var numToPush := Min(|items|, limit - count);
      var first := |items| - numToPush;
      ghost var was := contents;
      pushed := [];
      var f, b := first, |items| - 1;
      while f < |items|
        invariant first <= f <= |items| && b == |items| - 1 - (f - first)
        invariant Valid() && count == |was| + (f - first)
        invariant pushed == items[first..f]
        invariant contents == items[b + 1..] + was
      {
        PushFrontOne(items[b]);
        SuffixStep(items, b, was);
        SliceStep(items, first, f);
        pushed := pushed + [items[f]];
        f, b := f + 1, b - 1;
      }
    }

    /** Drops the front element. */
    method PopFront()
      requires Valid() && 0 < count
      modifies this
      ensures Valid() && contents == old(contents)[1..] && |contents| == |old(contents)| - 1
    {
      head := Slot(limit, head, 1);
      count, contents := count - 1, contents[1..];
    }

    /** Moves everything from `p` on one cell back. */
    method MakeRoom(p: nat)
      requires Valid() && p <= count < limit
      modifies cells
      ensures forall i :: 0 <= i < p ==> cells[Slot(limit, head, i)] == contents[i]
      ensures forall i :: p < i <= count ==> cells[Slot(limit, head, i)] == contents[i - 1]
    {
      var k := count;
      while p < k
        invariant p <= k <= count
        invariant forall i :: 0 <= i < k ==> cells[Slot(limit, head, i)] == contents[i]
        invariant forall i :: k < i <= count ==> cells[Slot(limit, head, i)] == contents[i - 1]
      {
        cells[Slot(limit, head, k)] := cells[Slot(limit, head, k - 1)];
        k := k - 1;
      }
    }

    method ShiftIn(p: nat, item: T)
      requires Valid() && p <= count < limit
      modifies this, cells
      ensures Valid() && contents == InsertAt(old(contents), p, item)
    {
      MakeRoom(p);
      cells[Slot(limit, head, p)] := item;
      InsertAtIndex(contents, p, item);
      count, contents := count + 1, InsertAt(contents, p, item);
    }

    /** `circular_buffer::insert` at position `pos`. */
    method Insert(pos: nat, item: T)
      requires Valid() && pos <= count
      modifies this, cells
      ensures Valid() && contents == RingInsert(limit, old(contents), pos, item)
    {
      if count < limit {
        ShiftIn(pos, item);
      } else if pos != 0 {
        InsertAtDrop(contents, pos, item, 1);
        PopFront();
        ShiftIn(pos - 1, item);
      }
    }

    /** The first position whose element satisfies `pred`, or the size. */
    method FindIndex(pred: T -> bool) returns (i: nat)
      requires Valid()
      ensures i <= |contents|
      ensures i < |contents| ==> pred(contents[i])
      ensures forall j :: 0 <= j < i ==> !pred(contents[j])
    {
      i := 0;
      while i < count
        invariant i <= count
        invariant forall j :: 0 <= j < i ==> !pred(contents[j])
      {
        if pred(cells[Slot(limit, head, i)]) {
          return;
        }
        i := i + 1;
      }
    }

    method FindNeedle(needle: T) returns (i: nat)
      requires Valid()
      ensures i == IndexOf(contents, needle)
    {
      i := FindIndex(x => x == needle);
    }

    method InsertBefore(needle: T, item: T) returns (inserted: bool)
      requires Valid()
      modifies this, cells
      ensures Valid() && contents == ApplyBounded(limit, old(contents), Op.InsertBefore(needle, item))
      ensures inserted == (needle in old(contents))
    {
      var i := FindNeedle(needle);
      inserted := i < count;
      if inserted {
        Insert(i, item);
      }
    }

    method InsertAfter(needle: T, item: T) returns (inserted: bool)
      requires Valid()
      modifies this, cells
      ensures Valid() && contents == ApplyBounded(limit, old(contents), Op.InsertAfter(needle, item))
      ensures inserted == (needle in old(contents))
    {
      var i := FindNeedle(needle);
      inserted := i < count;
      if inserted {
        Insert(i + 1, item);
      }
    }

    method Overwrite(index: nat, item: T)
      requires Valid() && index < count
      modifies this`contents, cells
      ensures Valid() && contents == old(contents)[index := item]
    {
      cells[Slot(limit, head, index)] := item;
      contents := contents[index := item];
    }

    /** Replaces the first occurrence of `needle`; the result is its position or -1. */
    method ReplaceItem(needle: T, replacement: T) returns (index: int)
      requires Valid()
      modifies this`contents, cells
      ensures Valid()
      ensures index == if needle in old(contents) then IndexOf(old(contents), needle) else -1
      ensures contents == Replaced(old(contents), index, replacement)
    {
      var i := FindNeedle(needle);
      if i < count {
        Overwrite(i, replacement);
        return i;
      }
      return -1;
    }

    /** Replaces by position and hands back what was there. */
    method ReplaceAt(index: nat, replacement: T) returns (prev: Option<T>)
      requires Valid()
      modifies this`contents, cells
      ensures Valid()
      ensures contents == Replaced(old(contents), index, replacement)
      ensures if index < |old(contents)|
              then prev == Some(old(contents)[index]) && contents == old(contents)[index := replacement]
              else prev == None && contents == old(contents)
    {
      if index >= count {
        return None;
      }
      prev := Some(cells[Slot(limit, head, index)]);
      Overwrite(index, replacement);
    }

    /** Tries `hint` first, then searches from the front. */
    method ReplaceHinted(hint: nat, needle: T, replacement: T) returns (index: int)
      requires Valid()
      modifies this`contents, cells
      ensures Valid()
      ensures index == HintedIndex(old(contents), hint, needle)
      ensures contents == Replaced(old(contents), index, replacement)
    {
      if hint < count && cells[Slot(limit, head, hint)] == needle {
        Overwrite(hint, replacement);
        return hint;
      }
      index := ReplaceItem(needle, replacement);
    }

    /** The last element that satisfies `pred`. */
    method RFind(pred: T -> bool) returns (r: Option<T>)
      requires Valid()
      ensures r.None? ==> forall j :: 0 <= j < |contents| ==> !pred(contents[j])
      ensures r.Some? ==> exists i :: 0 <= i < |contents| && r.value == contents[i] && pred(r.value)
                                      && forall j :: i < j < |contents| ==> !pred(contents[j])
    {
      var i := count;
      while 0 < i
        invariant 0 <= i <= count
        invariant forall j :: i <= j < count ==> !pred(contents[j])
      {
        i := i - 1;
        var item := cells[Slot(limit, head, i)];
        if pred(item) {
          return Some(item);
        }
      }
      return None;
    }

    /** The elements from position `from` on, front to back. */
    method CopyFrom(from: nat) returns (s: seq<T>)
      requires Valid() && from <= count
      ensures s == contents[from..]
    {
      s := [];
      for i := from to count
        invariant s == contents[from..i]
      {
        s := s + [cells[Slot(limit, head, i)]];
      }
    }

    method GetSnapshot() returns (s: seq<T>)
      requires Valid()
      ensures s == contents
    {
      s := CopyFrom(0);
    }

    method LastN(n: nat) returns (s: seq<T>)
      requires Valid()
      ensures s == Last(contents, n)
    {
      s := CopyFrom(count - Min(n, count));
    }
  }
}
