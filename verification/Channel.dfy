/**
 A chat channel: its bounded message log, the merging of late history into that log while other
 threads keep appending, and the guard that bounds re-entrant listeners.
 */
module Channels {
  import opened Prelude
  import opened LimitedQueues

  /**
   A frozen message. `object` is the identity of the message object (needles are compared by
   pointer); the other fields never change once the message is in a channel.
   */
  datatype Message = Message(object: nat, id: string, timestamp: int, isSystem: bool)

  // ---------------------------------------------------------------------------------------------
  // Filling in missing messages
  // ---------------------------------------------------------------------------------------------

  /** The non-empty ids of the snapshot's non-System messages. */
  function ExistingIds(snapshot: seq<Message>): set<string> {
    set m | m in snapshot && !m.isSystem && m.id != "" :: m.id
  }

  /** The first non-System snapshot message strictly later than `timestamp`, or `|snapshot|`. */
  function FirstLater(snapshot: seq<Message>, timestamp: int): (i: nat)
    ensures i <= |snapshot|
  {
    if snapshot == [] then 0
    else if !snapshot[0].isSystem && timestamp < snapshot[0].timestamp then 0
    else 1 + FirstLater(snapshot[1..], timestamp)
  }

  /** The locked step that places one message. */
  function PlaceOp(snapshot: seq<Message>, last: Message, m: Message): Op<Message> {
    var i := FirstLater(snapshot, m.timestamp);
    if i < |snapshot| then InsertBefore(snapshot[i], m) else InsertAfter(last, m)
  }

  function NextLast(snapshot: seq<Message>, last: Message, m: Message): Message {
    if FirstLater(snapshot, m.timestamp) < |snapshot| then last else m
  }

  function Appends(messages: seq<Message>): seq<Op<Message>> {
    seq(|messages|, i requires 0 <= i < |messages| => PushBack(messages[i]))
  }

  /**
   Every locked step from the snapshot on: before each batch message is handled, other threads
   append `concurrent[k]`; a message whose id is known is skipped, the others are placed.
   */
  function FillSteps(snapshot: seq<Message>, last: Message, batch: seq<Message>, concurrent: seq<seq<Message>>)
    : seq<Op<Message>>
    requires |concurrent| == |batch|
    decreases |batch|
  {
    if batch == [] then []
    else
      var m := batch[0];
      if m.id in ExistingIds(snapshot)
      then Appends(concurrent[0]) + FillSteps(snapshot, last, batch[1..], concurrent[1..])
      else Appends(concurrent[0]) + ([PlaceOp(snapshot, last, m)]
           + FillSteps(snapshot, NextLast(snapshot, last, m), batch[1..], concurrent[1..]))
  }

  function Flatten(concurrent: seq<seq<Message>>): seq<Message>
    decreases |concurrent|
  {
    if concurrent == [] then [] else concurrent[0] + Flatten(concurrent[1..])
  }

  /** All steps of one call; an empty snapshot makes it a single `pushFront`. */
  function FillOps(snapshot: seq<Message>, batch: seq<Message>, concurrent: seq<seq<Message>>): seq<Op<Message>>
    requires |concurrent| == |batch|
  {
    if batch == [] then []
    else if snapshot == [] then Appends(Flatten(concurrent)) + [PushFront(batch)]
    else FillSteps(snapshot, snapshot[|snapshot| - 1], batch, concurrent)
  }

  // ---------------------------------------------------------------------------------------------
  // What a fill amounts to: a merge by time
  // ---------------------------------------------------------------------------------------------

  /** The batch messages that are not skipped. */
  function Accepted(snapshot: seq<Message>, batch: seq<Message>): seq<Message> {
    if batch == [] then []
    else (if batch[0].id in ExistingIds(snapshot) then [] else [batch[0]]) + Accepted(snapshot, batch[1..])
  }

  /** How many leading messages are strictly earlier than `timestamp`. */
  function Leading(messages: seq<Message>, timestamp: int): (k: nat)
    ensures k <= |messages|
  {
    if messages == [] || messages[0].timestamp >= timestamp then 0
    else 1 + Leading(messages[1..], timestamp)
  }

  /**
   The stable merge of the snapshot with new messages: a new message goes directly in front of the
   first later non-System message; System messages of the snapshot do not attract anything.
   */
  function Merge(snapshot: seq<Message>, late: seq<Message>): seq<Message>
    decreases |snapshot|
  {
    if snapshot == [] then late
    else if snapshot[0].isSystem then [snapshot[0]] + Merge(snapshot[1..], late)
    else
      var k := Leading(late, snapshot[0].timestamp);
      late[..k] + [snapshot[0]] + Merge(snapshot[1..], late[k..])
  }

  ghost predicate Ascending(messages: seq<Message>) {
    forall i, j :: 0 <= i < j < |messages| ==> messages[i].timestamp <= messages[j].timestamp
  }

  ghost predicate AscendingNonSystem(messages: seq<Message>) {
    forall i, j :: 0 <= i < j < |messages| && !messages[i].isSystem && !messages[j].isSystem ==>
                     messages[i].timestamp <= messages[j].timestamp
  }

  /** What an unbounded log consisting of `w` becomes when the batch is placed in it, step by step. */
  function PlaceAll(snapshot: seq<Message>, w: seq<Message>, last: Message, accepted: seq<Message>): seq<Message>
    decreases |accepted|
  {
    if accepted == [] then w
    else PlaceAll(snapshot, ApplyUnbounded(w, PlaceOp(snapshot, last, accepted[0])),
                  NextLast(snapshot, last, accepted[0]), accepted[1..])
  }

  // --- runs -------------------------------------------------------------------------------------

  lemma {:induction false} RunConcat(s: seq<Message>, a: seq<Op<Message>>, b: seq<Op<Message>>)
    ensures RunUnbounded(s, a + b) == RunUnbounded(RunUnbounded(s, a), b)
    ensures !FreshRun(RunUnbounded(s, a), b) ==> !FreshRun(s, a + b)
    decreases |a|
  {
    if a == [] {
      assert a + b == b;
    } else {
      assert (a + b)[1..] == a[1..] + b;
      RunConcat(ApplyUnbounded(s, a[0]), a[1..], b);
    }
  }

  lemma {:induction false} RunAppends(s: seq<Message>, messages: seq<Message>)
    ensures RunUnbounded(s, Appends(messages)) == s + messages
    decreases |messages|
  {
    if messages == [] {
      assert s + messages == s;
    } else {
      assert Appends(messages)[1..] == Appends(messages[1..]);
      RunAppends(s + [messages[0]], messages[1..]);
      assert s + [messages[0]] + messages[1..] == s + messages;
    }
  }

  lemma OneStep(s: seq<Message>, op: Op<Message>, rest: seq<Op<Message>>)
    ensures RunUnbounded(s, [op] + rest) == RunUnbounded(ApplyUnbounded(s, op), rest)
    ensures FreshRun(s, [op] + rest) ==> Distinct(s) && FreshRun(ApplyUnbounded(s, op), rest)
  {
  }

  lemma Regroup(p: seq<Message>, a: seq<Message>, x: seq<Message>, b: seq<Message>)
    ensures p + (a + x + b) == p + a + x + b
  {
  }

  // --- one placement ----------------------------------------------------------------------------

  /** In a log without duplicates, inserting next to `x` lands next to `x`. */
  lemma InsertNextToIs(a: seq<Message>, x: Message, b: seq<Message>, offset: nat, m: Message)
    requires Distinct(a + [x] + b) && offset <= 1
    ensures InsertNextTo(a + [x] + b, x, offset, m) == if offset == 0 then a + [m] + [x] + b else a + [x] + [m] + b
  {
    var s := a + [x] + b;
    assert s[|a|] == x;
    assert IndexOf(s, x) == |a|;
  }

  lemma IndexInMiddle(pre: seq<Message>, w: seq<Message>, post: seq<Message>, needle: Message)
    requires Distinct(pre + w + post) && needle in w
    ensures IndexOf(w, needle) < |w|
    ensures IndexOf(pre + w + post, needle) == |pre| + IndexOf(w, needle)
  {
    var s, k := pre + w + post, IndexOf(w, needle);
    assert s[|pre| + k] == needle;
  }

  lemma InsertAtMiddle(pre: seq<Message>, w: seq<Message>, post: seq<Message>, i: nat, m: Message)
    requires i <= |w|
    ensures InsertAt(pre + w + post, |pre| + i, m) == pre + InsertAt(w, i, m) + post
  {
  }

  /** A placement inside the middle part of a log does not touch the parts around it. */
  lemma InsertInMiddle(pre: seq<Message>, w: seq<Message>, post: seq<Message>, needle: Message, offset: nat, m: Message)
    requires Distinct(pre + w + post) && needle in w && offset <= 1
    ensures InsertNextTo(pre + w + post, needle, offset, m) == pre + InsertNextTo(w, needle, offset, m) + post
  {
    IndexInMiddle(pre, w, post, needle);
    InsertAtMiddle(pre, w, post, IndexOf(w, needle) + offset, m);
  }

  // --- the whole fill on an unbounded log -------------------------------------------------------

  lemma {:induction false} FirstLaterIn(snapshot: seq<Message>, timestamp: int)
    ensures var i := FirstLater(snapshot, timestamp);
            && (i < |snapshot| ==>
                  && snapshot[i] in snapshot
                  && !snapshot[i].isSystem
                  && timestamp < snapshot[i].timestamp)
            && forall j :: 0 <= j < i ==> snapshot[j].isSystem || snapshot[j].timestamp <= timestamp
  {
    if snapshot != [] {
      FirstLaterIn(snapshot[1..], timestamp);
    }
  }

  /** The needle of a placement is in the part of the log that stems from the snapshot. */
  lemma PlaceStep(pre: seq<Message>, w: seq<Message>, post: seq<Message>, snapshot: seq<Message>, last: Message, m: Message)
    requires Distinct(pre + w + post) && last in w && forall x :: x in snapshot ==> x in w
    ensures var w' := ApplyUnbounded(w, PlaceOp(snapshot, last, m));
            && ApplyUnbounded(pre + w + post, PlaceOp(snapshot, last, m)) == pre + w' + post
            && NextLast(snapshot, last, m) in w'
            && forall x :: x in snapshot ==> x in w'
  {
    FirstLaterIn(snapshot, m.timestamp);
    var i := FirstLater(snapshot, m.timestamp);
    var needle := if i < |snapshot| then snapshot[i] else last;
    var offset := if i < |snapshot| then 0 else 1;
    InsertInMiddle(pre, w, post, needle, offset, m);
    assert IndexOf(w, needle) < |w| by {
      IndexInMiddle(pre, w, post, needle);
    }
    var at := IndexOf(w, needle) + offset;
    assert InsertNextTo(w, needle, offset, m) == InsertAt(w, at, m);
    assert InsertAt(w, at, m)[at] == m;
    forall x | x in w ensures x in InsertAt(w, at, m) {
      InsertAtKeeps(w, at, m, x);
    }
  }

  lemma InsertAtKeeps(w: seq<Message>, at: nat, m: Message, x: Message)
    requires at <= |w| && x in w
    ensures x in InsertAt(w, at, m)
  {
  }

  lemma PlaceAllStep(snapshot: seq<Message>, w: seq<Message>, last: Message, batch: seq<Message>)
    requires batch != []
    ensures var rest := Accepted(snapshot, batch[1..]);
            PlaceAll(snapshot, w, last, Accepted(snapshot, batch)) ==
            if batch[0].id in ExistingIds(snapshot) then PlaceAll(snapshot, w, last, rest)
            else PlaceAll(snapshot, ApplyUnbounded(w, PlaceOp(snapshot, last, batch[0])),
                          NextLast(snapshot, last, batch[0]), rest)
  {
    var rest := Accepted(snapshot, batch[1..]);
    assert [] + rest == rest && ([batch[0]] + rest)[1..] == rest;
  }

  /**
   Whatever other threads append in between, the steps act on the part of the log that stems from
   the snapshot exactly as they would alone, and everything appended ends up behind it.
   */
  lemma {:induction false} FillStepsPlace(
    pre: seq<Message>, w: seq<Message>, post: seq<Message>,
    snapshot: seq<Message>, last: Message, batch: seq<Message>, concurrent: seq<seq<Message>>)
    requires |concurrent| == |batch|
    requires FreshRun(pre + w + post, FillSteps(snapshot, last, batch, concurrent))
    requires last in w && forall x :: x in snapshot ==> x in w
    ensures RunUnbounded(pre + w + post, FillSteps(snapshot, last, batch, concurrent))
            == pre + PlaceAll(snapshot, w, last, Accepted(snapshot, batch)) + (post + Flatten(concurrent))
    decreases |batch|
  {
    if batch == [] {
      assert pre + w + post == pre + w + (post + Flatten(concurrent));
    } else {
      var s, m := pre + w + post, batch[0];
      var post' := post + concurrent[0];
      RunAppends(s, concurrent[0]);
      Assoc(pre + w, post, concurrent[0]);
      Assoc(post, concurrent[0], Flatten(concurrent[1..]));
      PlaceAllStep(snapshot, w, last, batch);
      if m.id in ExistingIds(snapshot) {
        RunConcat(s, Appends(concurrent[0]), FillSteps(snapshot, last, batch[1..], concurrent[1..]));
        FillStepsPlace(pre, w, post', snapshot, last, batch[1..], concurrent[1..]);
      } else {
        var last' := NextLast(snapshot, last, m);
        var rest := FillSteps(snapshot, last', batch[1..], concurrent[1..]);
        var op := PlaceOp(snapshot, last, m);
        RunConcat(s, Appends(concurrent[0]), [op] + rest);
        PlaceStep(pre, w, post', snapshot, last, m);
        OneStep(pre + w + post', op, rest);
        FillStepsPlace(pre, ApplyUnbounded(w, op), post', snapshot, last', batch[1..], concurrent[1..]);
      }
    }
  }

  // --- placements in time order are a merge -----------------------------------------------------

  lemma {:induction false} LeadingIs(late: seq<Message>, timestamp: int)
    ensures var k := Leading(late, timestamp);
            && (forall j :: 0 <= j < k ==> late[j].timestamp < timestamp)
            && (k < |late| ==> timestamp <= late[k].timestamp)
  {
    if late != [] && late[0].timestamp < timestamp {
      LeadingIs(late[1..], timestamp);
    }
  }

  lemma LeadingOfLonger(late: seq<Message>, m: Message, timestamp: int)
    requires Ascending(late + [m])
    ensures Leading(late + [m], timestamp) ==
            if m.timestamp < timestamp then |late| + 1 else Leading(late, timestamp)
  {
    var longer := late + [m];
    LeadingIs(late, timestamp);
    LeadingIs(longer, timestamp);
    assert longer[|late|] == m;
    assert forall j :: 0 <= j < |late| ==> longer[j] == late[j];
  }

  lemma {:induction false} MergeNothing(snapshot: seq<Message>)
    ensures Merge(snapshot, []) == snapshot
  {
    if snapshot != [] {
      MergeNothing(snapshot[1..]);
    }
  }

  lemma {:induction false} MergeAllBeforeHead(snapshot: seq<Message>, late: seq<Message>, m: Message)
    requires Ascending(late + [m])
    requires snapshot != [] && !snapshot[0].isSystem && m.timestamp < snapshot[0].timestamp
    ensures Merge(snapshot, late) == late + [snapshot[0]] + Merge(snapshot[1..], [])
    ensures Merge(snapshot, late + [m]) == late + [m, snapshot[0]] + Merge(snapshot[1..], [])
  {
    var s0, longer := snapshot[0], late + [m];
    LeadingOfLonger(late, m, s0.timestamp);
    LeadingIs(late, s0.timestamp);
    assert longer[|late|] == m;
    assert forall j :: 0 <= j < |late| ==> longer[j] == late[j];
    assert Leading(late, s0.timestamp) == |late|;
    assert late[..|late|] == late && late[|late|..] == [];
    assert longer[..|longer|] == longer && longer[|longer|..] == [];
    assert longer + [s0] == late + [m, s0];
  }

  lemma MergeHead(snapshot: seq<Message>, late: seq<Message>)
    requires snapshot != []
    ensures var s0, k := snapshot[0], Leading(late, snapshot[0].timestamp);
            Merge(snapshot, late) ==
            if s0.isSystem then [s0] + Merge(snapshot[1..], late)
            else late[..k] + [s0] + Merge(snapshot[1..], late[k..])
  {
  }

  lemma CutLonger(late: seq<Message>, m: Message, k: nat)
    requires k <= |late|
    ensures (late + [m])[..k] == late[..k] && (late + [m])[k..] == late[k..] + [m]
  {
  }

  /** Merging one more, latest message when a later non-System message exists: it goes right before it. */
  lemma {:induction false} MergeOneMoreBefore(snapshot: seq<Message>, late: seq<Message>, m: Message)
    returns (a: seq<Message>, b: seq<Message>)
    requires Ascending(late + [m])
    requires FirstLater(snapshot, m.timestamp) < |snapshot|
    ensures var needle := snapshot[FirstLater(snapshot, m.timestamp)];
            && Merge(snapshot, late) == a + [needle] + b
            && Merge(snapshot, late + [m]) == a + [m, needle] + b
    decreases |snapshot|
  {
    var s0 := snapshot[0];
    var needle := snapshot[FirstLater(snapshot, m.timestamp)];
    hide Merge;
    MergeHead(snapshot, late);
    MergeHead(snapshot, late + [m]);
    if s0.isSystem {
      a, b := MergeOneMoreBefore(snapshot[1..], late, m);
      Regroup([s0], a, [needle], b);
      Regroup([s0], a, [m, needle], b);
      a := [s0] + a;
    } else {
      var k := Leading(late, s0.timestamp);
      LeadingOfLonger(late, m, s0.timestamp);
      LeadingIs(late, s0.timestamp);
      if m.timestamp < s0.timestamp {
        MergeAllBeforeHead(snapshot, late, m);
        a, b := late, Merge(snapshot[1..], []);
      } else {
        CutLonger(late, m, k);
        a, b := MergeOneMoreBefore(snapshot[1..], late[k..], m);
        Regroup(late[..k] + [s0], a, [needle], b);
        Regroup(late[..k] + [s0], a, [m, needle], b);
        a := late[..k] + [s0] + a;
      }
    }
  }

  /** ... and when none exists, it goes to the end. */
  lemma {:induction false} MergeOneMoreAtEnd(snapshot: seq<Message>, late: seq<Message>, m: Message)
    requires Ascending(late + [m])
    requires FirstLater(snapshot, m.timestamp) == |snapshot|
    ensures Merge(snapshot, late + [m]) == Merge(snapshot, late) + [m]
    decreases |snapshot|
  {
    if snapshot != [] {
      var s0 := snapshot[0];
      if s0.isSystem {
        MergeOneMoreAtEnd(snapshot[1..], late, m);
      } else {
        var k := Leading(late, s0.timestamp);
        LeadingOfLonger(late, m, s0.timestamp);
        assert (late + [m])[..k] == late[..k] && (late + [m])[k..] == late[k..] + [m];
        MergeOneMoreAtEnd(snapshot[1..], late[k..], m);
      }
    }
  }

  // --- what the merge guarantees ----------------------------------------------------------------

  lemma {:induction false} MergeMembers(snapshot: seq<Message>, late: seq<Message>, x: Message)
    ensures x in Merge(snapshot, late) <==> x in snapshot || x in late
    decreases |snapshot|
  {
    if snapshot != [] {
      var k := if snapshot[0].isSystem then 0 else Leading(late, snapshot[0].timestamp);
      assert late == late[..k] + late[k..] && snapshot == [snapshot[0]] + snapshot[1..];
      MergeMembers(snapshot[1..], late[k..], x);
      assert snapshot[0].isSystem ==> late[0..] == late;
    }
  }

  /** The members of `s` that are in `keep`, in order. */
  function Restrict(s: seq<Message>, keep: set<Message>): seq<Message> {
    if s == [] then []
    else (if s[0] in keep then [s[0]] else []) + Restrict(s[1..], keep)
  }

  lemma {:induction false} RestrictConcat(a: seq<Message>, b: seq<Message>, keep: set<Message>)
    ensures Restrict(a + b, keep) == Restrict(a, keep) + Restrict(b, keep)
    decreases |a|
  {
    if a == [] {
      assert a + b == b;
    } else {
      assert (a + b)[1..] == a[1..] + b && (a + b)[0] == a[0];
      RestrictConcat(a[1..], b, keep);
      Assoc(if a[0] in keep then [a[0]] else [], Restrict(a[1..], keep), Restrict(b, keep));
    }
  }

  lemma {:induction false} RestrictAll(s: seq<Message>, keep: set<Message>)
    requires forall x :: x in s ==> x in keep
    ensures Restrict(s, keep) == s
    decreases |s|
  {
    if s != [] {
      RestrictAll(s[1..], keep);
    }
  }

  lemma {:induction false} RestrictNone(s: seq<Message>, keep: set<Message>)
    requires forall x :: x in s ==> x !in keep
    ensures Restrict(s, keep) == []
    decreases |s|
  {
    if s != [] {
      RestrictNone(s[1..], keep);
    }
  }

  lemma {:induction false} RestrictAround(a: seq<Message>, x: Message, b: seq<Message>, keep: set<Message>)
    ensures Restrict(a + [x] + b, keep) == Restrict(a, keep) + (if x in keep then [x] else []) + Restrict(b, keep)
  {
    RestrictConcat(a + [x], b, keep);
    RestrictConcat(a, [x], keep);
    assert Restrict([x], keep) == (if x in keep then [x] else []) + Restrict([], keep);
  }

  /** Taking a merge apart at the first snapshot message. */
  lemma MergeParts(snapshot: seq<Message>, late: seq<Message>) returns (a: seq<Message>, b: seq<Message>)
    requires snapshot != []
    ensures late == a + b
    ensures Merge(snapshot, late) == a + [snapshot[0]] + Merge(snapshot[1..], b)
  {
    var k := if snapshot[0].isSystem then 0 else Leading(late, snapshot[0].timestamp);
    a, b := late[..k], late[k..];
    assert snapshot[0].isSystem ==> b == late && a + [snapshot[0]] == [snapshot[0]];
  }

  /** The merge keeps the relative order of the snapshot ... */
  lemma {:induction false} MergeKeepsSnapshotOrder(snapshot: seq<Message>, late: seq<Message>, keep: set<Message>)
    requires (forall x :: x in snapshot ==> x in keep) && forall x :: x in late ==> x !in keep
    ensures Restrict(Merge(snapshot, late), keep) == snapshot
    decreases |snapshot|
  {
    if snapshot == [] {
      RestrictNone(late, keep);
    } else {
      var a, b := MergeParts(snapshot, late);
      MergeKeepsSnapshotOrder(snapshot[1..], b, keep);
      RestrictAround(a, snapshot[0], Merge(snapshot[1..], b), keep);
      RestrictNone(a, keep);
    }
  }

  /** ... and that of the new messages. */
  lemma {:induction false} MergeKeepsLateOrder(snapshot: seq<Message>, late: seq<Message>, keep: set<Message>)
    requires (forall x :: x in snapshot ==> x !in keep) && forall x :: x in late ==> x in keep
    ensures Restrict(Merge(snapshot, late), keep) == late
    decreases |snapshot|
  {
    if snapshot == [] {
      RestrictAll(late, keep);
    } else {
      var a, b := MergeParts(snapshot, late);
      MergeKeepsLateOrder(snapshot[1..], b, keep);
      RestrictAround(a, snapshot[0], Merge(snapshot[1..], b), keep);
      RestrictAll(a, keep);
    }
  }

  /** In time order, as far as the System messages of the snapshot are not concerned. */
  ghost predicate AscendingBut(s: seq<Message>, ignored: set<Message>) {
    forall i, j :: 0 <= i < j < |s| && s[i] !in ignored && s[j] !in ignored ==> s[i].timestamp <= s[j].timestamp
  }

  ghost function SystemOf(snapshot: seq<Message>): set<Message> {
    set m | m in snapshot && m.isSystem
  }

  lemma AscendingConcat(a: seq<Message>, x: Message, b: seq<Message>, ignored: set<Message>)
    requires AscendingBut(a, ignored) && AscendingBut(b, ignored)
    requires forall y :: y in a && y !in ignored ==>
               && (x !in ignored ==> y.timestamp <= x.timestamp)
               && forall z :: z in b && z !in ignored ==> y.timestamp <= z.timestamp
    requires x !in ignored ==> forall z :: z in b && z !in ignored ==> x.timestamp <= z.timestamp
    ensures AscendingBut(a + [x] + b, ignored)
  {
  }

  /** Nothing behind the first message is earlier. */
  lemma NotEarlier(snapshot: seq<Message>, b: seq<Message>, z: Message)
    requires snapshot != [] && !snapshot[0].isSystem && AscendingNonSystem(snapshot) && Ascending(b)
    requires b != [] ==> snapshot[0].timestamp <= b[0].timestamp
    requires (z in snapshot[1..] && !z.isSystem) || z in b
    ensures snapshot[0].timestamp <= z.timestamp
  {
    if z in b {
      var j :| 0 <= j < |b| && b[j] == z;
    } else {
      var j :| 0 <= j < |snapshot[1..]| && snapshot[1..][j] == z;
      assert snapshot[j + 1] == z;
    }
  }

  /** The merge is in time order. */
  lemma {:induction false} MergeAscending(snapshot: seq<Message>, late: seq<Message>, ignored: set<Message>)
    requires AscendingNonSystem(snapshot) && Ascending(late)
    requires SystemOf(snapshot) <= ignored
    ensures AscendingBut(Merge(snapshot, late), ignored)
    decreases |snapshot|
  {
    if snapshot != [] {
      var s0 := snapshot[0];
      var k := if s0.isSystem then 0 else Leading(late, s0.timestamp);
      var a, b := late[..k], late[k..];
      assert s0.isSystem ==> b == late && [] + [s0] == [s0];
      LeadingIs(late, s0.timestamp);
      MergeAscending(snapshot[1..], b, ignored);
      var tail := Merge(snapshot[1..], b);
      assert Merge(snapshot, late) == a + [s0] + tail;
      hide Merge, Leading;
      if !s0.isSystem {
        forall z | z in tail && z !in ignored ensures s0.timestamp <= z.timestamp {
          MergeMembers(snapshot[1..], b, z);
          NotEarlier(snapshot, b, z);
        }
      }
      AscendingConcat(a, s0, tail, ignored);
    }
  }

  /** In `w` a new message at `i` is followed by other new messages and then, at `j`, one of the snapshot. */
  ghost predicate NextKnown(w: seq<Message>, snapshot: set<Message>, i: nat, j: nat) {
    i < j < |w| && w[j] in snapshot && forall k :: i <= k < j ==> w[k] !in snapshot
  }

  /**
   A new message comes directly in front of a strictly later message of the snapshot that is no System
   message, with only other new messages in between, or behind the whole snapshot.
   */
  ghost predicate PlacedBeforeLater(w: seq<Message>, snapshot: set<Message>) {
    forall i: nat, j: nat :: NextKnown(w, snapshot, i, j) ==> w[i].timestamp < w[j].timestamp && !w[j].isSystem
  }

  lemma NextKnownInTail(front: seq<Message>, b: seq<Message>, snapshot: set<Message>, i: nat, j: nat)
    requires PlacedBeforeLater(b, snapshot) && |front| <= i && NextKnown(front + b, snapshot, i, j)
    ensures (front + b)[i].timestamp < (front + b)[j].timestamp && !(front + b)[j].isSystem
  {
    var n := |front|;
    forall k | i - n <= k < j - n ensures b[k] !in snapshot {
      assert b[k] == (front + b)[k + n];
    }
    assert NextKnown(b, snapshot, i - n, j - n);
  }

  lemma NextKnownInFront(a: seq<Message>, x: Message, b: seq<Message>, snapshot: set<Message>, i: nat, j: nat)
    requires x in snapshot && forall y :: y in a ==> y !in snapshot
    requires i < |a| && NextKnown(a + [x] + b, snapshot, i, j)
    ensures j == |a| && (a + [x] + b)[j] == x && (a + [x] + b)[i] == a[i]
  {
    assert (a + [x] + b)[|a|] == x;
    assert forall k :: 0 <= k < |a| ==> (a + [x] + b)[k] == a[k];
  }

  lemma PlacedAround(a: seq<Message>, x: Message, b: seq<Message>, snapshot: set<Message>)
    requires x in snapshot && forall y :: y in a ==> y !in snapshot && y.timestamp < x.timestamp && !x.isSystem
    requires PlacedBeforeLater(b, snapshot)
    ensures PlacedBeforeLater(a + [x] + b, snapshot)
  {
    var w := a + [x] + b;
    forall i: nat, j: nat | NextKnown(w, snapshot, i, j) ensures w[i].timestamp < w[j].timestamp && !w[j].isSystem {
      if i < |a| {
        NextKnownInFront(a, x, b, snapshot, i, j);
        assert a[i] in a;
      } else {
        assert w[|a|] == x;
        NextKnownInTail(a + [x], b, snapshot, i, j);
      }
    }
  }

  /** Of messages with the same time the old ones come first, and System messages attract nothing. */
  lemma {:induction false} MergePlacesBeforeLater(snapshot: seq<Message>, late: seq<Message>, known: set<Message>)
    requires (forall x :: x in snapshot ==> x in known) && forall x :: x in late ==> x !in known
    ensures PlacedBeforeLater(Merge(snapshot, late), known)
    decreases |snapshot|
  {
    if snapshot == [] {
      assert forall j :: 0 <= j < |late| ==> late[j] in late;
    } else {
      var s0 := snapshot[0];
      var k := if s0.isSystem then 0 else Leading(late, s0.timestamp);
      var a, b := late[..k], late[k..];
      assert Merge(snapshot, late) == a + [s0] + Merge(snapshot[1..], b) by {
        assert s0.isSystem ==> b == late && [] + [s0] == [s0];
      }
      LeadingIs(late, s0.timestamp);
      MergePlacesBeforeLater(snapshot[1..], b, known);
      hide Merge, Leading, PlacedBeforeLater;
      PlacedAround(a, s0, Merge(snapshot[1..], b), known);
    }
  }

  // --- placements are a merge -------------------------------------------------------------------

  lemma {:induction false} MergeStepBefore(snapshot: seq<Message>, late: seq<Message>, m: Message)
    requires Ascending(late + [m]) && Distinct(Merge(snapshot, late))
    requires FirstLater(snapshot, m.timestamp) < |snapshot|
    ensures var w, w' := Merge(snapshot, late), Merge(snapshot, late + [m]);
            var needle := snapshot[FirstLater(snapshot, m.timestamp)];
            InsertNextTo(w, needle, 0, m) == w' && w != [] && w' != [] && w'[|w'| - 1] == w[|w| - 1]
  {
    var needle := snapshot[FirstLater(snapshot, m.timestamp)];
    var a, b := MergeOneMoreBefore(snapshot, late, m);
    InsertNextToIs(a, needle, b, 0, m);
    assert a + [m] + [needle] == a + [m, needle];
  }

  /** Each placement extends the merge by one message and keeps track of its last element. */
  lemma {:induction false} MergeStep(snapshot: seq<Message>, late: seq<Message>, m: Message)
    requires snapshot != [] && Ascending(late + [m])
    requires Distinct(Merge(snapshot, late))
    ensures var w := Merge(snapshot, late);
            && w != []
            && ApplyUnbounded(w, PlaceOp(snapshot, w[|w| - 1], m)) == Merge(snapshot, late + [m])
            && var w' := Merge(snapshot, late + [m]);
               w' != [] && w'[|w'| - 1] == NextLast(snapshot, w[|w| - 1], m)
  {
    var w := Merge(snapshot, late);
    MergeMembers(snapshot, late, snapshot[0]);
    var last := w[|w| - 1];
    if FirstLater(snapshot, m.timestamp) < |snapshot| {
      MergeStepBefore(snapshot, late, m);
    } else {
      MergeOneMoreAtEnd(snapshot, late, m);
      assert w == w[..|w| - 1] + [last] + [];
      InsertNextToIs(w[..|w| - 1], last, [], 1, m);
    }
  }

  /** Placing an ascending batch one by one builds the merge. */
  lemma {:induction false} PlaceAllIsMerge(snapshot: seq<Message>, done: seq<Message>, accepted: seq<Message>)
    requires snapshot != [] && Ascending(done + accepted)
    requires Distinct(snapshot + (done + accepted))
    ensures var w := Merge(snapshot, done);
            w != [] && PlaceAll(snapshot, w, w[|w| - 1], accepted) == Merge(snapshot, done + accepted)
    decreases |accepted|
  {
    var w := Merge(snapshot, done);
    MergeMembers(snapshot, done, snapshot[0]);
    if accepted == [] {
      assert done + accepted == done;
    } else {
      var m, rest := accepted[0], accepted[1..];
      assert (done + [m]) + rest == done + accepted;
      assert Ascending(done + [m]) by {
        assert forall i :: 0 <= i < |done| + 1 ==> (done + [m])[i] == (done + accepted)[i];
      }
      MergeDistinct(snapshot, done, accepted);
      MergeStep(snapshot, done, m);
      PlaceAllIsMerge(snapshot, done + [m], rest);
    }
  }

  lemma {:induction false} MergeMultiset(snapshot: seq<Message>, late: seq<Message>)
    ensures multiset(Merge(snapshot, late)) == multiset(snapshot) + multiset(late)
    decreases |snapshot|
  {
    if snapshot != [] {
      var a, b := MergeParts(snapshot, late);
      MergeMultiset(snapshot[1..], b);
      hide *;
      var rest := Merge(snapshot[1..], b);
      assert multiset(a + [snapshot[0]] + rest) == multiset(a) + multiset{snapshot[0]} + multiset(rest);
      assert snapshot == [snapshot[0]] + snapshot[1..];
      assert multiset(snapshot) == multiset{snapshot[0]} + multiset(snapshot[1..]);
      assert multiset(late) == multiset(a) + multiset(b);
    }
  }

  lemma MergeDistinct(snapshot: seq<Message>, done: seq<Message>, more: seq<Message>)
    requires Distinct(snapshot + (done + more))
    ensures Distinct(Merge(snapshot, done))
  {
    MergeMultiset(snapshot, done);
    var all := snapshot + (done + more);
    assert multiset(all) == multiset(Merge(snapshot, done)) + multiset(more);
    DistinctPart(Merge(snapshot, done), all);
  }

  // --- the theorem ------------------------------------------------------------------------------

  lemma {:induction false} AcceptedMembers(snapshot: seq<Message>, batch: seq<Message>)
    ensures forall m :: m in Accepted(snapshot, batch) <==> m in batch && m.id !in ExistingIds(snapshot)
    ensures multiset(Accepted(snapshot, batch)) <= multiset(batch)
    decreases |batch|
  {
    if batch != [] {
      AcceptedMembers(snapshot, batch[1..]);
      assert batch == [batch[0]] + batch[1..];
    }
  }

  lemma {:induction false} AcceptedAscending(snapshot: seq<Message>, batch: seq<Message>)
    requires Ascending(batch)
    ensures Ascending(Accepted(snapshot, batch))
    decreases |batch|
  {
    if batch != [] {
      AcceptedAscending(snapshot, batch[1..]);
      AcceptedMembers(snapshot, batch[1..]);
      AscendingCons(batch[0], Accepted(snapshot, batch[1..]));
    }
  }

  lemma AscendingCons(m: Message, rest: seq<Message>)
    requires Ascending(rest) && forall x :: x in rest ==> m.timestamp <= x.timestamp
    ensures Ascending([m] + rest)
  {
  }

  lemma {:induction false} AppendsBringIn(messages: seq<Message>, ops: seq<Op<Message>>)
    ensures AllNewItems(Appends(messages) + ops) == messages + AllNewItems(ops)
    decreases |messages|
  {
    if messages == [] {
      assert Appends(messages) + ops == ops;
    } else {
      var rest := Appends(messages[1..]) + ops;
      assert Appends(messages) + ops == [PushBack(messages[0])] + rest;
      assert ([PushBack(messages[0])] + rest)[1..] == rest;
      AppendsBringIn(messages[1..], ops);
      assert AllNewItems([PushBack(messages[0])] + rest) == [messages[0]] + AllNewItems(rest);
      hide AllNewItems, Appends;
      assert messages == [messages[0]] + messages[1..];
    }
  }

  lemma {:induction false} FillStepsBringIn(snapshot: seq<Message>, last: Message, batch: seq<Message>, concurrent: seq<seq<Message>>)
    requires |concurrent| == |batch|
    ensures multiset(AllNewItems(FillSteps(snapshot, last, batch, concurrent)))
            <= multiset(batch) + multiset(Flatten(concurrent))
    decreases |batch|
  {
    if batch != [] {
      var m := batch[0];
      assert batch == [m] + batch[1..];
      if m.id in ExistingIds(snapshot) {
        var rest := FillSteps(snapshot, last, batch[1..], concurrent[1..]);
        AppendsBringIn(concurrent[0], rest);
        FillStepsBringIn(snapshot, last, batch[1..], concurrent[1..]);
      } else {
        var rest := FillSteps(snapshot, NextLast(snapshot, last, m), batch[1..], concurrent[1..]);
        AppendsBringIn(concurrent[0], [PlaceOp(snapshot, last, m)] + rest);
        assert ([PlaceOp(snapshot, last, m)] + rest)[1..] == rest;
        assert AllNewItems([PlaceOp(snapshot, last, m)] + rest) == [m] + AllNewItems(rest);
        FillStepsBringIn(snapshot, NextLast(snapshot, last, m), batch[1..], concurrent[1..]);
      }
    }
  }

  lemma FillOpsFresh(history: seq<Message>, snapshot: seq<Message>, batch: seq<Message>, concurrent: seq<seq<Message>>)
    requires |concurrent| == |batch|
    requires Distinct(history + batch + Flatten(concurrent))
    ensures FreshRun(history, FillOps(snapshot, batch, concurrent))
  {
    var ops := FillOps(snapshot, batch, concurrent);
    if batch != [] {
      if snapshot == [] {
        AppendsBringIn(Flatten(concurrent), [PushFront(batch)]);
        assert AllNewItems([PushFront(batch)]) == batch;
      } else {
        FillStepsBringIn(snapshot, snapshot[|snapshot| - 1], batch, concurrent);
      }
    }
    var all := history + batch + Flatten(concurrent);
    DistinctMultiset(all);
    assert multiset(AllNewItems(ops)) <= multiset(batch) + multiset(Flatten(concurrent));
    assert multiset(history) + multiset(AllNewItems(ops)) <= multiset(all);
    assert forall x :: multiset(history)[x] + multiset(AllNewItems(ops))[x] <= multiset(all)[x];
    DistinctRunIsFresh(history, ops);
  }

  /** The unbounded log after a fill: what was evicted before, the merge, then everything appended. */
  lemma {:induction false} FillMergesHistory(limit: nat, history: seq<Message>, batch: seq<Message>, concurrent: seq<seq<Message>>)
    requires 0 < limit && |concurrent| == |batch| && batch != []
    requires Distinct(history + batch + Flatten(concurrent))
    requires AscendingNonSystem(Last(history, limit)) && Ascending(batch)
    ensures var snapshot := Last(history, limit);
            RunUnbounded(history, FillOps(snapshot, batch, concurrent))
            == history[..|history| - |snapshot|] + Merge(snapshot, Accepted(snapshot, batch)) + Flatten(concurrent)
  {
    hide Merge, Accepted, FillOps, RunUnbounded, Flatten;
    var snapshot := Last(history, limit);
    var older := history[..|history| - |snapshot|];
    if snapshot == [] {
      FillOfEmpty(batch, concurrent);
      assert history == older == [];
    } else {
      assert history == older + snapshot + [];
      FillOfNonEmpty(older, snapshot, batch, concurrent);
    }
  }

  lemma EmptySnapshot(batch: seq<Message>, concurrent: seq<seq<Message>>)
    requires |concurrent| == |batch| && batch != []
    ensures FillOps([], batch, concurrent) == Appends(Flatten(concurrent)) + [PushFront(batch)]
    ensures Merge([], batch) == batch
  {
    hide Appends, Flatten;
  }

  lemma RunPushFront(s: seq<Message>, items: seq<Message>)
    ensures RunUnbounded(s, [PushFront(items)]) == items + s
  {
    assert RunUnbounded(items + s, []) == items + s;
  }

  lemma {:induction false} FillOfEmpty(batch: seq<Message>, concurrent: seq<seq<Message>>)
    requires |concurrent| == |batch| && batch != []
    ensures RunUnbounded([], FillOps([], batch, concurrent))
            == [] + Merge([], Accepted([], batch)) + Flatten(concurrent)
  {
    var all := Flatten(concurrent);
    EmptySnapshot(batch, concurrent);
    AcceptAll(batch);
    hide *;
    RunConcat([], Appends(all), [PushFront(batch)]);
    RunAppends([], all);
    RunPushFront(all, batch);
    assert [] + all == all && [] + batch == batch;
  }

  lemma {:induction false} FillOfNonEmpty(older: seq<Message>, snapshot: seq<Message>, batch: seq<Message>, concurrent: seq<seq<Message>>)
    requires |concurrent| == |batch| && batch != [] && snapshot != []
    requires Distinct(older + snapshot + [] + batch + Flatten(concurrent))
    requires AscendingNonSystem(snapshot) && Ascending(batch)
    ensures RunUnbounded(older + snapshot + [], FillOps(snapshot, batch, concurrent))
            == older + Merge(snapshot, Accepted(snapshot, batch)) + Flatten(concurrent)
  {
    FillOpsFresh(older + snapshot + [], snapshot, batch, concurrent);
    FillStepsPlace(older, snapshot, [], snapshot, snapshot[|snapshot| - 1], batch, concurrent);
    assert [] + Flatten(concurrent) == Flatten(concurrent);
    assert Distinct(snapshot + batch) by {
      DistinctPart(snapshot + batch, older + snapshot + [] + batch + Flatten(concurrent));
    }
    PlacedBatchIsMerge(snapshot, batch);
  }

  lemma {:induction false} PlacedBatchIsMerge(snapshot: seq<Message>, batch: seq<Message>)
    requires snapshot != [] && Distinct(snapshot + batch) && Ascending(batch)
    ensures PlaceAll(snapshot, snapshot, snapshot[|snapshot| - 1], Accepted(snapshot, batch))
            == Merge(snapshot, Accepted(snapshot, batch))
  {
    var accepted := Accepted(snapshot, batch);
    AcceptedMembers(snapshot, batch);
    AcceptedAscending(snapshot, batch);
    DistinctPart(snapshot + accepted, snapshot + batch);
    MergeNothing(snapshot);
    assert [] + accepted == accepted;
    hide PlaceAll, Merge, Accepted;
    PlaceAllIsMerge(snapshot, [], accepted);
  }

  lemma {:induction false} AcceptAll(batch: seq<Message>)
    ensures Accepted([], batch) == batch
    decreases |batch|
  {
    if batch != [] {
      AcceptAll(batch[1..]);
    }
  }

  /**
   Filling in missing messages under any interleaving with appending threads: the ring ends up
   holding the last `limit` elements of the evicted history, then the merge of the snapshot with the
   accepted messages, then everything that was appended meanwhile.
   */
  lemma {:induction false} FillRefinesMerge(limit: nat, history: seq<Message>, batch: seq<Message>, concurrent: seq<seq<Message>>)
    requires 0 < limit && |concurrent| == |batch| && batch != []
    requires Distinct(history + batch + Flatten(concurrent))
    requires AscendingNonSystem(Last(history, limit)) && Ascending(batch)
    ensures var snapshot := Last(history, limit);
            RunBounded(limit, snapshot, FillOps(snapshot, batch, concurrent))
            == Last(history[..|history| - |snapshot|] + Merge(snapshot, Accepted(snapshot, batch)) + Flatten(concurrent), limit)
  {
    var snapshot := Last(history, limit);
    FillOpsFresh(history, snapshot, batch, concurrent);
    FillMergesHistory(limit, history, batch, concurrent);
    RunRefines(limit, history, FillOps(snapshot, batch, concurrent));
  }

  /** Someone else in the snapshot, not a System message, already carries this non-empty id. */
  ghost predicate IdTaken(snapshot: seq<Message>, m: Message) {
    m.id != "" && exists s :: s in snapshot && !s.isSystem && s.id == m.id
  }

  /**
   What the merge promises a reader of the log: snapshot and batch keep their own order, everything
   but the snapshot's System messages is in time order, and exactly the batch messages whose
   non-empty id is not yet taken are in it.
   */
  lemma {:induction false} FillGuarantees(snapshot: seq<Message>, batch: seq<Message>)
    requires Distinct(snapshot + batch)
    requires AscendingNonSystem(snapshot) && Ascending(batch)
    ensures var filled := Merge(snapshot, Accepted(snapshot, batch));
            && Restrict(filled, set m | m in snapshot) == snapshot
            && Restrict(filled, set m | m in batch) == Accepted(snapshot, batch)
            && AscendingBut(filled, SystemOf(snapshot))
            && forall m :: m in batch ==> (m in filled <==> !IdTaken(snapshot, m))
  {
    var accepted := Accepted(snapshot, batch);
    AcceptedMembers(snapshot, batch);
    AcceptedAscending(snapshot, batch);
    DistinctMultiset(snapshot + batch);
    assert forall x :: x in batch ==> multiset(batch)[x] >= 1 && multiset(snapshot + batch)[x] <= 1;
    MergeKeepsSnapshotOrder(snapshot, accepted, set m | m in snapshot);
    MergeKeepsLateOrder(snapshot, accepted, set m | m in batch);
    MergeAscending(snapshot, accepted, SystemOf(snapshot));
    forall m | m in batch ensures m in Merge(snapshot, accepted) <==> !IdTaken(snapshot, m) {
      MergeMembers(snapshot, accepted, m);
      assert m.id in ExistingIds(snapshot) <==> IdTaken(snapshot, m);
    }
  }

  /** Ids are only compared when non-empty: an empty id is filled in although a snapshot message has it. */
  lemma EmptyIdsAreFilledInAgain()
    ensures var s, m := Message(0, "", 5, false), Message(1, "", 7, false);
            s.id == m.id && Merge([s], Accepted([s], [m])) == [s, m]
  {
  }

  // ---------------------------------------------------------------------------------------------
  // Re-entrant listeners
  // ---------------------------------------------------------------------------------------------

  const MAX_RECURSION := 64

  /** The guarded mutators of a channel. */
  datatype Call =
    | Add(message: Message)
    | AddAtStart(messages: seq<Message>)
    | Fill(batch: seq<Message>)
    | Replace(message: Message, replacement: Message)
    | ReplaceIndex(index: nat, replacement: Message)
    | ReplaceHint(hint: nat, message: Message, replacement: Message)
    | ClearAll

  /** What a mutator announces to its listeners. */
  datatype Signal =
    | Appended(message: Message)
    | AddedAtStart(messages: seq<Message>)
    | FilledIn(messages: seq<Message>)
    | Replaced(index: nat, previous: Message, replacement: Message)
    | Cleared

  /**
   All listeners of a channel taken together. When a signal arrives they make `fanout` further calls,
   each chosen when it is made; `path` is the position in the call tree, so any deterministic
   finite-branching behaviour is some `Listener`.
   */
  datatype Listener = Listener(
    fanout: (seq<nat>, Signal, seq<Message>) -> nat,
    choose: (seq<nat>, Signal, seq<Message>) -> Call)

  /** No other thread appends anything. */
  function Alone(batch: seq<Message>): (c: seq<seq<Message>>)
    ensures |c| == |batch|
  {
    seq(|batch|, _ => [])
  }

  /** The log after the body of one mutator. */
  function BodyLog(limit: nat, s: seq<Message>, call: Call): (r: seq<Message>)
    requires 0 < limit && |s| <= limit
    ensures |r| <= limit
  {
    match call
    case Add(m) => ApplyBounded(limit, s, PushBack(m))
    case AddAtStart(ms) => ApplyBounded(limit, s, PushFront(ms))
    case Fill(batch) => RunBounded(limit, s, FillOps(s, batch, Alone(batch)))
    case Replace(m, new_) => if m in s then s[IndexOf(s, m) := new_] else s
    case ReplaceIndex(i, new_) => if i < |s| then s[i := new_] else s
    case ReplaceHint(hint, m, new_) =>
      var i := HintedIndex(s, hint, m);
      if i >= 0 then s[i := new_] else s
    case ClearAll => []
  }

  /** The signal that body sends, if any. */
  function BodySignal(limit: nat, s: seq<Message>, call: Call): Option<Signal>
    requires 0 < limit && |s| <= limit
  {
    match call
    case Add(m) => Some(Appended(m))
    case AddAtStart(ms) =>
      var pushed := Fitting(limit, s, ms);
      if pushed == [] then None else Some(AddedAtStart(pushed))
    case Fill(batch) => if s == [] || Accepted(s, batch) != [] then Some(FilledIn(batch)) else None
    case Replace(m, new_) => if m in s then Some(Replaced(IndexOf(s, m), m, new_)) else None
    case ReplaceIndex(i, new_) => if i < |s| then Some(Replaced(i, s[i], new_)) else None
    case ReplaceHint(hint, m, new_) => if HintedIndex(s, hint, m) >= 0 then Some(Replaced(hint, m, new_)) else None
    case ClearAll => Some(Cleared)
  }

  /** The first occurrence of `m` gives way to `new_`. */
  ghost predicate ReplacedFirst(s: seq<Message>, s': seq<Message>, i: nat, m: Message, new_: Message) {
    i < |s| && s[i] == m && m !in s[..i] && s' == s[..i] + [new_] + s[i + 1..]
  }

  /** What each mutator makes of the log `s` and what it announces: nothing, if it finds nothing to do. */
  ghost predicate DoneAndAnnounced(limit: nat, s: seq<Message>, call: Call, s': seq<Message>, signal: Option<Signal>)
    requires 0 < limit && |s| <= limit
  {
    match call
    case Add(m) => s' == Last(s + [m], limit) && signal == Some(Appended(m))
    case AddAtStart(ms) =>
      var n := Min(|ms|, limit - |s|);
      && |s'| == n + |s| && s'[n..] == s && s'[..n] == ms[|ms| - n..]
      && signal == if n == 0 then None else Some(AddedAtStart(s'[..n]))
    case Fill(batch) =>
      && s' == RunBounded(limit, s, FillOps(s, batch, Alone(batch)))
      && (signal == Some(FilledIn(batch)) || signal.None?)
      && (signal.None? <==> s != [] && forall m :: m in batch ==>
                              exists e :: e in s && e.id == m.id && e.id != "" && !e.isSystem)
    case Replace(m, new_) =>
      if m in s then exists i: nat :: ReplacedFirst(s, s', i, m, new_) && signal == Some(Replaced(i, m, new_))
      else s' == s && signal.None?
    case ReplaceIndex(i, new_) =>
      if i < |s| then s' == s[..i] + [new_] + s[i + 1..] && signal == Some(Replaced(i, s[i], new_))
      else s' == s && signal.None?
    case ReplaceHint(hint, m, new_) =>
      if m !in s then s' == s && signal.None?
      else
        && signal == Some(Replaced(hint, m, new_))
        && if hint < |s| && s[hint] == m then s' == s[..hint] + [new_] + s[hint + 1..]
           else exists i: nat :: ReplacedFirst(s, s', i, m, new_)
    case ClearAll => s' == [] && signal == Some(Cleared)
  }

  lemma BodyIs(limit: nat, s: seq<Message>, call: Call)
    requires 0 < limit && |s| <= limit
    ensures DoneAndAnnounced(limit, s, call, BodyLog(limit, s, call), BodySignal(limit, s, call))
  {
    if call.Fill? {
      FillBodyIs(limit, s, call.batch);
    } else {
      hide RunBounded, FillOps, Accepted;
      if call.Replace? || call.ReplaceHint? {
        FirstReplaced(s, call.message, call.replacement);
        hide ReplacedFirst, ApplyBounded;
      }
    }
  }

  lemma FillBodyIs(limit: nat, s: seq<Message>, batch: seq<Message>)
    requires 0 < limit && |s| <= limit
    ensures DoneAndAnnounced(limit, s, Fill(batch), BodyLog(limit, s, Fill(batch)), BodySignal(limit, s, Fill(batch)))
  {
    AcceptedMembers(s, batch);
    hide FillOps, RunBounded, ApplyBounded, HintedIndex, ReplacedFirst, Accepted;
    if Accepted(s, batch) != [] {
      assert Accepted(s, batch)[0] in Accepted(s, batch);
    }
  }

  lemma FirstReplaced(s: seq<Message>, m: Message, new_: Message)
    ensures m in s ==> IndexOf(s, m) < |s| && ReplacedFirst(s, s[IndexOf(s, m) := new_], IndexOf(s, m), m, new_)
  {
  }

  /** The log after a call tree and the nesting depth of every mutator body that ran, in order. */
  datatype Outcome = Outcome(log: seq<Message>, depths: seq<nat>)

  function Perform(limit: nat, s: seq<Message>, count: nat, call: Call, listener: Listener, path: seq<nat>): (o: Outcome)
    requires 0 < limit && |s| <= limit && count < MAX_RECURSION
    ensures |o.log| <= limit
    decreases MAX_RECURSION - count, 0, 0
  {
    if call == Fill([]) || count + 1 == MAX_RECURSION then Outcome(s, [])
    else
      var log := BodyLog(limit, s, call);
      match BodySignal(limit, s, call)
      case None => Outcome(log, [count + 1])
      case Some(signal) =>
        var o := Notify(limit, log, count + 1, signal, listener, path, 0, listener.fanout(path, signal, log));
        Outcome(o.log, [count + 1] + o.depths)
  }

  /** Calls `k` to `n` of the listeners, made while `count` bodies are on the stack. */
  function Notify(
    limit: nat, s: seq<Message>, count: nat, signal: Signal, listener: Listener, path: seq<nat>, k: nat, n: nat)
    : (o: Outcome)
    requires 0 < limit && |s| <= limit && count < MAX_RECURSION && k <= n
    ensures |o.log| <= limit
    decreases MAX_RECURSION - count, 1, n - k
  {
    if k == n then Outcome(s, [])
    else
      var first := Perform(limit, s, count, listener.choose(path + [k], signal, s), listener, path + [k]);
      var others := Notify(limit, first.log, count, signal, listener, path, k + 1, n);
      Outcome(others.log, first.depths + others.depths)
  }

  /** Whatever the listeners do, at most 63 mutator bodies are ever nested. */
  lemma {:induction false} BodiesNestAtMost63(
    limit: nat, s: seq<Message>, count: nat, call: Call, listener: Listener, path: seq<nat>)
    requires 0 < limit && |s| <= limit && count < MAX_RECURSION
    ensures forall d :: d in Perform(limit, s, count, call, listener, path).depths ==> count < d <= 63
    decreases MAX_RECURSION - count, 0, 0
  {
    if call != Fill([]) && count + 1 < MAX_RECURSION {
      var log := BodyLog(limit, s, call);
      match BodySignal(limit, s, call) {
        case None =>
        case Some(signal) =>
          ListenersNestAtMost63(limit, log, count + 1, signal, listener, path, 0, listener.fanout(path, signal, log));
      }
    }
  }

  lemma {:induction false} ListenersNestAtMost63(
    limit: nat, s: seq<Message>, count: nat, signal: Signal, listener: Listener, path: seq<nat>, k: nat, n: nat)
    requires 0 < limit && |s| <= limit && count < MAX_RECURSION && k <= n
    ensures forall d :: d in Notify(limit, s, count, signal, listener, path, k, n).depths ==> count < d <= 63
    decreases MAX_RECURSION - count, 1, n - k
  {
    if k < n {
      var call := listener.choose(path + [k], signal, s);
      BodiesNestAtMost63(limit, s, count, call, listener, path + [k]);
      var first := Perform(limit, s, count, call, listener, path + [k]);
      ListenersNestAtMost63(limit, first.log, count, signal, listener, path, k + 1, n);
    }
  }

  /** Bodies in a full call tree of height `height` in which every body makes `fanout` calls. */
  function TreeSize(fanout: nat, height: nat): nat {
    if height == 0 then 0 else 1 + fanout * TreeSize(fanout, height - 1)
  }

  lemma TreeGrows(n: nat, fanout: nat, height: nat)
    requires n <= fanout && height > 0
    ensures 1 <= 1 + n * TreeSize(fanout, height - 1) <= TreeSize(fanout, height)
  {
  }

  /** With at most `b` calls per signal, a call tree runs at most as many bodies as the full tree of height 63. */
  lemma {:induction false} CallTreeBounded(
    limit: nat, s: seq<Message>, count: nat, call: Call, listener: Listener, path: seq<nat>, b: nat)
    requires 0 < limit && |s| <= limit && count < MAX_RECURSION
    requires forall p, sig, log :: listener.fanout(p, sig, log) <= b
    ensures |Perform(limit, s, count, call, listener, path).depths| <= TreeSize(b, 63 - count)
    decreases MAX_RECURSION - count, 0, 0
  {
    hide TreeSize, Notify;
    if call != Fill([]) && count + 1 < MAX_RECURSION {
      var log := BodyLog(limit, s, call);
      var signal := BodySignal(limit, s, call);
      var n := if signal.Some? then listener.fanout(path, signal.value, log) else 0;
      TreeGrows(n, b, 63 - count);
      hide BodyLog, BodySignal;
      if signal.Some? {
        CallsBounded(limit, log, count + 1, signal.value, listener, path, 0, n, b);
      }
    }
  }

  lemma {:induction false} CallsBounded(
    limit: nat, s: seq<Message>, count: nat, signal: Signal, listener: Listener, path: seq<nat>, k: nat, n: nat, b: nat)
    requires 0 < limit && |s| <= limit && count < MAX_RECURSION && k <= n
    requires forall p, sig, log :: listener.fanout(p, sig, log) <= b
    ensures |Notify(limit, s, count, signal, listener, path, k, n).depths| <= (n - k) * TreeSize(b, 63 - count)
    decreases MAX_RECURSION - count, 1, n - k
  {
    hide TreeSize;
    if k < n {
      var call := listener.choose(path + [k], signal, s);
      CallTreeBounded(limit, s, count, call, listener, path + [k], b);
      var first := Perform(limit, s, count, call, listener, path + [k]);
      CallsBounded(limit, first.log, count, signal, listener, path, k + 1, n, b);
      OneMoreTime(n - k, TreeSize(b, 63 - count));
    }
  }

  /** A listener that answers every signal with one more append. */
  function Echo(m: Message): Listener {
    Listener((p, sig, log) => 1, (p, sig, log) => Add(m))
  }

  /** The calls of a listener that makes one call. */
  lemma OneCall(limit: nat, s: seq<Message>, count: nat, signal: Signal, m: Message, path: seq<nat>)
    requires 0 < limit && |s| <= limit && count < MAX_RECURSION
    ensures Notify(limit, s, count, signal, Echo(m), path, 0, 1).depths
            == Perform(limit, s, count, Add(m), Echo(m), path + [0]).depths
  {
    var inner := Perform(limit, s, count, Add(m), Echo(m), path + [0]);
    assert Notify(limit, inner.log, count, signal, Echo(m), path, 1, 1) == Outcome(inner.log, []);
    hide Perform;
    assert Notify(limit, s, count, signal, Echo(m), path, 0, 1).depths == inner.depths + [];
  }

  predicate Announces(limit: nat, s: seq<Message>, call: Call)
    requires 0 < limit && |s| <= limit
  {
    call != Fill([]) && BodySignal(limit, s, call).Some?
  }

  lemma EchoStep(limit: nat, s: seq<Message>, count: nat, call: Call, m: Message, path: seq<nat>)
    requires 0 < limit && |s| <= limit && count + 1 < MAX_RECURSION && Announces(limit, s, call)
    ensures var log := BodyLog(limit, s, call);
            Perform(limit, s, count, call, Echo(m), path).depths
            == [count + 1] + Perform(limit, log, count + 1, Add(m), Echo(m), path + [0]).depths
  {
    OneCall(limit, BodyLog(limit, s, call), count + 1, BodySignal(limit, s, call).value, m, path);
    hide BodyLog, BodySignal, Notify;
  }

  lemma NoEcho(limit: nat, s: seq<Message>, count: nat, call: Call, m: Message, path: seq<nat>)
    requires 0 < limit && |s| <= limit && count < MAX_RECURSION && (!Announces(limit, s, call) || count + 1 == MAX_RECURSION)
    ensures Perform(limit, s, count, call, Echo(m), path).depths
            == if call == Fill([]) || count + 1 == MAX_RECURSION then [] else [count + 1]
  {
    hide BodyLog, BodySignal, Notify;
  }

  lemma AddAnnounces(limit: nat, s: seq<Message>, m: Message)
    requires 0 < limit && |s| <= limit
    ensures Announces(limit, s, Add(m))
  {
  }

  /**
   The bound is reached: against such a listener every call that announces anything leads to bodies at
   exactly the depths up to 63; any other call runs its own body, if that depth is allowed, and no more.
   */
  lemma {:induction false} EchoNestsAllTheWay(
    limit: nat, s: seq<Message>, count: nat, call: Call, m: Message, path: seq<nat>)
    requires 0 < limit && |s| <= limit && count < MAX_RECURSION
    ensures Perform(limit, s, count, call, Echo(m), path).depths
            == if Announces(limit, s, call) then seq(63 - count, i requires 0 <= i => count + 1 + i)
               else if call == Fill([]) || count == 63 then [] else [count + 1]
    decreases MAX_RECURSION - count
  {
    hide Perform, Notify, BodyLog, BodySignal, Announces, Echo;
    if Announces(limit, s, call) && count + 1 < MAX_RECURSION {
      var log := BodyLog(limit, s, call);
      EchoStep(limit, s, count, call, m, path);
      AddAnnounces(limit, log, m);
      EchoNestsAllTheWay(limit, log, count + 1, Add(m), m, path + [0]);
    } else {
      NoEcho(limit, s, count, call, m, path);
    }
  }

  /**
   A replacement found by search is announced at the hint, not at the position that changed: the two
   agree exactly when the hint is that position.
   */
  lemma HintedReplaceAnnouncesHint(limit: nat, s: seq<Message>, hint: nat, m: Message, new_: Message)
    requires 0 < limit && |s| <= limit && m in s
    ensures var call := ReplaceHint(hint, m, new_);
            && BodySignal(limit, s, call) == Some(Replaced(hint, m, new_))
            && (hint == HintedIndex(s, hint, m) <==> hint < |s| && s[hint] == m)
            && BodyLog(limit, s, call) == s[HintedIndex(s, hint, m) := new_]
  {
  }

  /** The second of two messages, looked for with the hint 0: position 0 is announced, position 1 changes. */
  lemma HintedReplaceCanMisannounce()
    ensures var a, b, new_ := Message(0, "a", 1, false), Message(1, "b", 2, false), Message(2, "c", 3, false);
            var call := ReplaceHint(0, b, new_);
            && BodySignal(2, [a, b], call) == Some(Replaced(0, b, new_))
            && BodyLog(2, [a, b], call) == [a, new_]
  {
    var a, b := Message(0, "a", 1, false), Message(1, "b", 2, false);
    assert [a, b][0] == a && [a, b][1] == b;
  }

  // ---------------------------------------------------------------------------------------------
  // The channel itself
  // ---------------------------------------------------------------------------------------------

  lemma FillSkips(snapshot: seq<Message>, last: Message, batch: seq<Message>, concurrent: seq<seq<Message>>)
    requires |concurrent| == |batch| && batch != [] && batch[0].id in ExistingIds(snapshot)
    ensures FillSteps(snapshot, last, batch, concurrent)
            == Appends(concurrent[0]) + FillSteps(snapshot, last, batch[1..], concurrent[1..])
    ensures Accepted(snapshot, batch) == Accepted(snapshot, batch[1..])
  {
  }

  lemma FillPlaces(snapshot: seq<Message>, last: Message, batch: seq<Message>, concurrent: seq<seq<Message>>)
    requires |concurrent| == |batch| && batch != [] && batch[0].id !in ExistingIds(snapshot)
    ensures FillSteps(snapshot, last, batch, concurrent)
            == Appends(concurrent[0]) + ([PlaceOp(snapshot, last, batch[0])]
               + FillSteps(snapshot, NextLast(snapshot, last, batch[0]), batch[1..], concurrent[1..]))
    ensures Accepted(snapshot, batch) != []
  {
  }

  lemma OneBoundedStep(limit: nat, s: seq<Message>, op: Op<Message>, rest: seq<Op<Message>>)
    requires 0 < limit && |s| <= limit
    ensures RunBounded(limit, s, [op] + rest) == RunBounded(limit, ApplyBounded(limit, s, op), rest)
  {
  }

  class Channel {
    const messages: LimitedQueue<Message>
    var recursionCount: nat

    ghost predicate Valid()
      reads this, messages, messages.cells
    {
      messages.Valid()
    }

    constructor (scrollbackLimit: nat)
      requires 0 < scrollbackLimit
      ensures Valid() && fresh(messages) && fresh(messages.cells)
      ensures messages.limit == scrollbackLimit && messages.contents == [] && recursionCount == 0
    {
      messages := new LimitedQueue<Message>(scrollbackLimit);
      recursionCount := 0;
    }

    /** Appends by other threads, each its own locked step. */
    method AppendAll(others: seq<Message>)
      requires Valid()
      modifies messages, messages.cells
      ensures Valid() && messages.contents == RunBounded(messages.limit, old(messages.contents), Appends(others))
    {
      ghost var was := messages.contents;
      for k := 0 to |others|
        invariant Valid()
        invariant RunBounded(messages.limit, messages.contents, Appends(others[k..]))
               == RunBounded(messages.limit, was, Appends(others))
      {
        var _, _ := messages.PushBack(others[k]);
        assert Appends(others[k..])[1..] == Appends(others[k + 1..]);
      }
    }

    /** Puts one message in front of the first later one of the snapshot, or behind `last`. */
    method Place(snapshot: seq<Message>, last: Message, msg: Message) returns (newLast: Message)
      requires Valid()
      modifies messages, messages.cells
      ensures Valid()
      ensures messages.contents == ApplyBounded(messages.limit, old(messages.contents), PlaceOp(snapshot, last, msg))
      ensures newLast == NextLast(snapshot, last, msg)
    {
      hide ApplyBounded;
      var i := FindFirstLater(snapshot, msg.timestamp);
      if i < |snapshot| {
        var _ := messages.InsertBefore(snapshot[i], msg);
        return last;
      }
      var _ := messages.InsertAfter(last, msg);
      return msg;
    }

    /**
     The body of `fillInMissingMessages`. `concurrent[k]` is what other threads append before batch
     message `k` is handled; every call on `messages` is one locked step.
     */
    method FillInMissingMessages(batch: seq<Message>, concurrent: seq<seq<Message>>) returns (announced: bool)
      requires Valid() && |concurrent| == |batch| && batch != []
      modifies messages, messages.cells
      ensures Valid()
      ensures messages.contents
              == RunBounded(messages.limit, old(messages.contents), FillOps(old(messages.contents), batch, concurrent))
      ensures announced == (old(messages.contents) == [] || Accepted(old(messages.contents), batch) != [])
    {
      ghost var was := messages.contents;
      var snapshot := messages.GetSnapshot();
      if |snapshot| == 0 {
        AppendAll(Flatten(concurrent));
        var _ := messages.PushFront(batch);
        RunBoundedConcat(messages.limit, was, Appends(Flatten(concurrent)), [PushFront(batch)]);
        return true;
      }
      var existingMessageIds := ExistingIds(snapshot);
      var anyInserted := false;
      var lastMsg := snapshot[|snapshot| - 1];
      assert batch[0..] == batch && concurrent[0..] == concurrent;
      for k := 0 to |batch|
        invariant Valid()
        invariant RunBounded(messages.limit, messages.contents, FillSteps(snapshot, lastMsg, batch[k..], concurrent[k..]))
               == RunBounded(messages.limit, was, FillOps(was, batch, concurrent))
        invariant (anyInserted || Accepted(snapshot, batch[k..]) != []) == (Accepted(snapshot, batch) != [])
      {
        var msg := batch[k];
        hide FillSteps, RunBounded, Accepted, Appends, ApplyBounded, PlaceOp, NextLast;
        ghost var before := messages.contents;
        assert batch[k..][1..] == batch[k + 1..] && concurrent[k..][1..] == concurrent[k + 1..];
        AppendAll(concurrent[k]);
        if msg.id in existingMessageIds {
          FillSkips(snapshot, lastMsg, batch[k..], concurrent[k..]);
          RunBoundedConcat(messages.limit, before, Appends(concurrent[k]),
                           FillSteps(snapshot, lastMsg, batch[k + 1..], concurrent[k + 1..]));
        } else {
          anyInserted := true;
          ghost var op, next := PlaceOp(snapshot, lastMsg, msg), NextLast(snapshot, lastMsg, msg);
          ghost var rest := FillSteps(snapshot, next, batch[k + 1..], concurrent[k + 1..]);
          FillPlaces(snapshot, lastMsg, batch[k..], concurrent[k..]);
          RunBoundedConcat(messages.limit, before, Appends(concurrent[k]), [op] + rest);
          OneBoundedStep(messages.limit, messages.contents, op, rest);
          lastMsg := Place(snapshot, lastMsg, msg);
        }
      }
      return anyInserted;
    }

    /** The body of a mutator: what it does to the log and what it announces. */
    method Body(call: Call) returns (signal: Option<Signal>)
      requires Valid() && call != Fill([])
      modifies messages, messages.cells
      ensures Valid()
      ensures messages.contents == BodyLog(messages.limit, old(messages.contents), call)
      ensures signal == BodySignal(messages.limit, old(messages.contents), call)
      ensures DoneAndAnnounced(messages.limit, old(messages.contents), call, messages.contents, signal)
    {
      BodyIs(messages.limit, messages.contents, call);
      hide DoneAndAnnounced;
      match call {
        case Add(m) =>
          var _, _ := messages.PushBack(m);
          return Some(Appended(m));
        case AddAtStart(ms) =>
          var pushed := messages.PushFront(ms);
          return if |pushed| != 0 then Some(AddedAtStart(pushed)) else None;
        case Fill(batch) =>
          var announced := FillInMissingMessages(batch, Alone(batch));
          return if announced then Some(FilledIn(batch)) else None;
        case Replace(m, new_) =>
          var index := messages.ReplaceItem(m, new_);
          return if index >= 0 then Some(Replaced(index, m, new_)) else None;
        case ReplaceIndex(i, new_) =>
          var prev := messages.ReplaceAt(i, new_);
          return if prev.Some? then Some(Replaced(i, prev.value, new_)) else None;
        case ReplaceHint(hint, m, new_) =>
          var index := messages.ReplaceHinted(hint, m, new_);
          return if index >= 0 then Some(Replaced(hint, m, new_)) else None;
        case ClearAll =>
          messages.Clear();
          return Some(Cleared);
      }
    }

    /**
     A guarded mutator call. The precondition on `recursionCount` is the assertion in the guard's
     constructor: it holds again for every call a listener makes.
     */
    method Invoke(call: Call, listener: Listener, path: seq<nat>) returns (ghost depths: seq<nat>)
      requires Valid() && recursionCount < MAX_RECURSION
      modifies this, messages, messages.cells
      ensures Valid() && recursionCount == old(recursionCount)
      ensures Outcome(messages.contents, depths)
              == Perform(messages.limit, old(messages.contents), old(recursionCount), call, listener, path)
      decreases MAX_RECURSION - recursionCount, 0, 0
    {
      hide Notify, BodyLog, BodySignal, DoneAndAnnounced;
      depths := [];
      if call == Fill([]) {
        return;
      }
      recursionCount := recursionCount + 1;
      if recursionCount < MAX_RECURSION {
        depths := [recursionCount];
        var signal := Body(call);
        if signal.Some? {
          var log := messages.GetSnapshot();
          var n := listener.fanout(path, signal.value, log);
          var inner := InvokeListeners(signal.value, listener, path, 0, n);
          depths := depths + inner;
        }
      }
      recursionCount := recursionCount - 1;
    }

    method InvokeListeners(signal: Signal, listener: Listener, path: seq<nat>, k: nat, n: nat)
      returns (ghost depths: seq<nat>)
      requires Valid() && recursionCount < MAX_RECURSION && k <= n
      modifies this, messages, messages.cells
      ensures Valid() && recursionCount == old(recursionCount)
      ensures Outcome(messages.contents, depths)
              == Notify(messages.limit, old(messages.contents), old(recursionCount), signal, listener, path, k, n)
      decreases MAX_RECURSION - recursionCount, 1, n - k
    {
      depths := [];
      if k < n {
        var snapshot := messages.GetSnapshot();
        var first := Invoke(listener.choose(path + [k], signal, snapshot), listener, path + [k]);
        var others := InvokeListeners(signal, listener, path, k + 1, n);
        depths := first + others;
      }
    }
  }

  /** The inner search loop of the fill. */
  method FindFirstLater(snapshot: seq<Message>, timestamp: int) returns (i: nat)
    ensures i == FirstLater(snapshot, timestamp)
  {
    i := 0;
    while i < |snapshot|
      invariant i <= |snapshot|
      invariant FirstLater(snapshot, timestamp) == i + FirstLater(snapshot[i..], timestamp)
    {
      if !snapshot[i].isSystem && timestamp < snapshot[i].timestamp {
        return;
      }
      i := i + 1;
    }
  }
}
