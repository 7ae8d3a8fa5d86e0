/**
 Breaking a word that does not fit into its line: the fallback loop of a text element, which cuts
 between characters (a high surrogate and the unit after it stay together).
 */
module Wrapping {
  import opened Prelude

  predicate IsHighSurrogate(c: CodeUnit): (r: bool)
    ensures r <==> c / 0x400 == 0x36
  {
    0xD800 <= c <= 0xDBFF
  }

  /** What the loop needs from its surroundings: the advance of a character and the width of a line. */
  datatype Metrics = Metrics(advance: Text -> real, lineWidth: real) {
    ghost predicate Valid() {
      forall s :: advance(s) >= 0.0
    }

    predicate FitsInLine(width: real) {
      width <= lineWidth
    }
  }

  /** How many units the character at `i` takes. */
  function CharLength(word: Text, i: nat): (n: nat)
    requires i < |word|
    ensures 1 <= n && i + n <= |word|
  {
    if i + 1 < |word| && IsHighSurrogate(word[i]) then 2 else 1
  }

  function CharWidth(word: Text, m: Metrics, i: nat): real
    requires i < |word|
  {
    m.advance(word[i..i + CharLength(word, i)])
  }

  /** `to` is reached from `from` by stepping over whole characters. */
  predicate Reaches(word: Text, from: nat, to: nat)
    decreases |word| - from
  {
    || from == to
    || (from < to <= |word|
        && Reaches(word, from + CharLength(word, from), to))
  }

  /** Width of the characters from `from` to `to`. */
  function WidthOf(word: Text, m: Metrics, from: nat, to: nat): real
    requires to <= |word|
    decreases |word| - from
  {
    if from >= to then 0.0
    else CharWidth(word, m, from) + WidthOf(word, m, from + CharLength(word, from), to)
  }

  // ---------------------------------------------------------------------------------------------
  // Splits of a word
  // ---------------------------------------------------------------------------------------------

  /** A piece between two character boundaries that fits, or is a single character. */
  ghost predicate PieceOk(word: Text, m: Metrics, from: nat, to: nat) {
    && from < to <= |word| && Reaches(word, from, to)
    && (|| m.FitsInLine(WidthOf(word, m, from, to))
        || to == from + CharLength(word, from))
  }

  /** `ends` are the ends of acceptable, non-empty pieces that cover the word from `from` on. */
  ghost predicate ValidSplit(word: Text, m: Metrics, from: nat, ends: seq<nat>)
    decreases |ends|
  {
    if ends == [] then from == |word|
    else
      && PieceOk(word, m, from, ends[0])
      && ValidSplit(word, m, ends[0], ends[1..])
  }

  /** Where a line that is already `width` full and has come to `at` ends. */
  function Extend(word: Text, m: Metrics, at: nat, width: real): (end: nat)
    requires at <= |word|
    ensures at <= end <= |word|
    decreases |word| - at
  {
    if at == |word| || !m.FitsInLine(width + CharWidth(word, m, at)) then at
    else Extend(word, m, at + CharLength(word, at), width + CharWidth(word, m, at))
  }

  /** End of the line that starts with the character at `from`, whether that one fits or not. */
  function LineEnd(word: Text, m: Metrics, from: nat): (end: nat)
    requires from < |word|
    ensures from < end <= |word|
  {
    Extend(word, m, from + CharLength(word, from), CharWidth(word, m, from))
  }

  function Greedy(word: Text, m: Metrics, from: nat): seq<nat>
    requires from <= |word|
    decreases |word| - from
  {
    if from == |word| then []
    else [LineEnd(word, m, from)] + Greedy(word, m, LineEnd(word, m, from))
  }

  // ---------------------------------------------------------------------------------------------
  // Boundaries and widths
  // ---------------------------------------------------------------------------------------------

  lemma {:induction false} ReachesTrans(word: Text, a: nat, b: nat, c: nat)
    requires Reaches(word, a, b) && Reaches(word, b, c) && c <= |word|
    ensures Reaches(word, a, c) && a <= b <= c
    decreases |word| - a
  {
    if a < b {
      ReachesTrans(word, a + CharLength(word, a), b, c);
    }
    ReachesForward(word, b, c);
  }

  lemma ReachesForward(word: Text, a: nat, b: nat)
    requires Reaches(word, a, b)
    ensures a <= b
  {
  }

  /** Of two boundaries seen from the same place, the nearer one leads to the farther one. */
  lemma {:induction false} ReachesBetween(word: Text, a: nat, b: nat, c: nat)
    requires Reaches(word, a, b) && Reaches(word, a, c) && b <= c
    ensures Reaches(word, b, c)
    decreases |word| - a
  {
    if a < b {
      ReachesBetween(word, a + CharLength(word, a), b, c);
    }
  }

  lemma {:induction false} WidthSplits(word: Text, m: Metrics, a: nat, b: nat, c: nat)
    requires Reaches(word, a, b) && b <= c <= |word|
    ensures WidthOf(word, m, a, c) == WidthOf(word, m, a, b) + WidthOf(word, m, b, c)
    decreases |word| - a
  {
    ReachesForward(word, a, b);
    if a < b {
      ReachesForward(word, a + CharLength(word, a), b);
      WidthSplits(word, m, a + CharLength(word, a), b, c);
    }
  }

  lemma {:induction false} WidthNonNegative(word: Text, m: Metrics, a: nat, b: nat)
    requires m.Valid() && b <= |word|
    ensures WidthOf(word, m, a, b) >= 0.0
    decreases |word| - a
  {
    if a < b {
      WidthNonNegative(word, m, a + CharLength(word, a), b);
    }
  }

  /** A line ends on a boundary and, past its first character, within its width. */
  lemma {:induction false} ExtendFits(word: Text, m: Metrics, at: nat, width: real)
    requires at <= |word|
    ensures var end := Extend(word, m, at, width);
            && Reaches(word, at, end)
            && (end == at || m.FitsInLine(width + WidthOf(word, m, at, end)))
    decreases |word| - at
  {
    if at < |word| && m.FitsInLine(width + CharWidth(word, m, at)) {
      ExtendFits(word, m, at + CharLength(word, at), width + CharWidth(word, m, at));
    }
  }

  /** A line does not stop short of a boundary up to which everything fits. */
  lemma {:induction false} ExtendReachesFar(word: Text, m: Metrics, at: nat, width: real, c: nat)
    requires m.Valid() && Reaches(word, at, c) && c <= |word|
    requires m.FitsInLine(width + WidthOf(word, m, at, c))
    ensures at <= |word| && c <= Extend(word, m, at, width)
    decreases |word| - at
  {
    ReachesForward(word, at, c);
    if at < c {
      var next := at + CharLength(word, at);
      ReachesForward(word, next, c);
      WidthNonNegative(word, m, next, c);
      ExtendReachesFar(word, m, next, width + CharWidth(word, m, at), c);
    }
  }

  lemma LineEndOk(word: Text, m: Metrics, from: nat)
    requires from < |word|
    ensures PieceOk(word, m, from, LineEnd(word, m, from))
  {
    var next := from + CharLength(word, from);
    ExtendFits(word, m, next, CharWidth(word, m, from));
  }

  /** The greedy split is acceptable. */
  lemma {:induction false} GreedyIsValid(word: Text, m: Metrics, from: nat)
    requires from <= |word|
    ensures ValidSplit(word, m, from, Greedy(word, m, from))
    decreases |word| - from
  {
    if from < |word| {
      LineEndOk(word, m, from);
      GreedyIsValid(word, m, LineEnd(word, m, from));
    }
  }

  /** Where the lines of the greedy split begin and, at the end, where the last one ends. */
  function LineStarts(word: Text, m: Metrics, from: nat): seq<nat>
    requires from <= |word|
  {
    [from] + Greedy(word, m, from)
  }

  lemma {:induction false} ExtendIsFull(word: Text, m: Metrics, at: nat, width: real)
    requires at <= |word|
    ensures var end := Extend(word, m, at, width);
            && (at < end ==> width + WidthOf(word, m, at, end) <= m.lineWidth)
            && (end < |word| ==> m.lineWidth < width + WidthOf(word, m, at, end) + CharWidth(word, m, end))
    decreases |word| - at
  {
    if at < |word| && m.FitsInLine(width + CharWidth(word, m, at)) {
      ExtendIsFull(word, m, at + CharLength(word, at), width + CharWidth(word, m, at));
    }
  }

  /** A line is no wider than it may be, unless it is a single character, and the next character would be too much. */
  lemma {:induction false} LinesAreFull(word: Text, m: Metrics, from: nat, k: nat)
    requires from <= |word| && k < |Greedy(word, m, from)|
    ensures var start, end := LineStarts(word, m, from)[k], LineStarts(word, m, from)[k + 1];
            && start < end <= |word|
            && (WidthOf(word, m, start, end) <= m.lineWidth || end == start + CharLength(word, start))
            && (end < |word| ==> m.lineWidth < WidthOf(word, m, start, end) + CharWidth(word, m, end))
    decreases k
  {
    if k == 0 {
      ExtendIsFull(word, m, from + CharLength(word, from), CharWidth(word, m, from));
    } else {
      LinesAreFull(word, m, LineEnd(word, m, from), k - 1);
    }
  }

  /** No acceptable split uses fewer pieces, even one that starts earlier in the word. */
  lemma {:induction false} GreedyIsFewest(word: Text, m: Metrics, early: nat, from: nat, ends: seq<nat>)
    requires m.Valid() && from <= |word| && Reaches(word, early, from)
    requires ValidSplit(word, m, early, ends)
    ensures |Greedy(word, m, from)| <= |ends|
    decreases |ends|
  {
    ReachesForward(word, early, from);
    if from < |word| {
      var c, end := ends[0], LineEnd(word, m, from);
      LineEndOk(word, m, from);
      ReachesTrans(word, early, from, end);
      if from < c {
        PieceEndsInLine(word, m, early, from, c);
      }
      ReachesBetween(word, early, c, end);
      GreedyIsFewest(word, m, c, end, ends[1..]);
    }
  }

  /** A piece that starts no later than a line and extends into it ends no later than the line. */
  lemma PieceEndsInLine(word: Text, m: Metrics, early: nat, from: nat, c: nat)
    requires m.Valid() && from < c <= |word| && Reaches(word, early, from) && PieceOk(word, m, early, c)
    ensures c <= LineEnd(word, m, from)
  {
    ReachesForward(word, early, from);
    if early < from {
      ReachesForward(word, early + CharLength(word, early), from);
    }
    ReachesBetween(word, early, from, c);
    var next := from + CharLength(word, from);
    ReachesForward(word, next, c);
    if c != next {
      WidthSplits(word, m, early, from, c);
      WidthNonNegative(word, m, early, from);
      ExtendReachesFar(word, m, next, CharWidth(word, m, from), c);
    }
  }

  // ---------------------------------------------------------------------------------------------
  // Surrogates
  // ---------------------------------------------------------------------------------------------

  /** No boundary inside the word follows a high surrogate. */
  ghost predicate KeepsSurrogatesTogether(word: Text) {
    forall p: nat :: 0 < p < |word| && Reaches(word, 0, p) ==> !IsHighSurrogate(word[p - 1])
  }

  /** Two high surrogates in a row with something after them: not well-formed UTF-16. */
  ghost predicate DoubleHigh(word: Text, k: nat) {
    k + 2 < |word| && IsHighSurrogate(word[k]) && IsHighSurrogate(word[k + 1])
  }

  /** Behind a unit that is not a high surrogate there is always a boundary. */
  lemma {:induction false} BoundaryAfterOrdinary(word: Text, from: nat, p: nat)
    requires from <= p <= |word| && (p == from || !IsHighSurrogate(word[p - 1]))
    ensures Reaches(word, from, p)
    decreases |word| - from
  {
    if from < p {
      var next := from + CharLength(word, from);
      if next <= p {
        BoundaryAfterOrdinary(word, next, p);
      }
    }
  }

  lemma {:induction false} BoundaryAfterHigh(word: Text, from: nat, p: nat)
    requires from < p < |word| && Reaches(word, from, p) && IsHighSurrogate(word[p - 1])
    ensures exists k: nat :: DoubleHigh(word, k)
    decreases |word| - from
  {
    var next := from + CharLength(word, from);
    ReachesForward(word, next, p);
    if next < p {
      BoundaryAfterHigh(word, next, p);
    } else {
      assert DoubleHigh(word, p - 2);
    }
  }

  lemma {:induction false} DoubleHighCut(word: Text, k: nat)
    requires DoubleHigh(word, k)
    ensures exists p: nat :: 0 < p < |word| && Reaches(word, 0, p) && IsHighSurrogate(word[p - 1])
    decreases k
  {
    if 0 < k && IsHighSurrogate(word[k - 1]) {
      DoubleHighCut(word, k - 1);
    } else {
      BoundaryAfterOrdinary(word, 0, k);
      assert Reaches(word, k, k + 2);
      ReachesTrans(word, 0, k, k + 2);
    }
  }

  /**
   Cutting between characters never separates a high surrogate from a unit that follows it exactly
   when the word has no two consecutive high surrogates followed by a further unit.
   */
  lemma SurrogatesKeptIff(word: Text)
    ensures KeepsSurrogatesTogether(word) <==> !exists k: nat :: DoubleHigh(word, k)
  {
    if exists k: nat :: DoubleHigh(word, k) {
      var k: nat :| DoubleHigh(word, k);
      DoubleHighCut(word, k);
    } else {
      forall p: nat | 0 < p < |word| && Reaches(word, 0, p) ensures !IsHighSurrogate(word[p - 1]) {
        if IsHighSurrogate(word[p - 1]) {
          BoundaryAfterHigh(word, 0, p);
        }
      }
    }
  }

  /** Every end of the greedy split is a boundary ... */
  lemma {:induction false} GreedyCutsAtBoundaries(word: Text, m: Metrics, from: nat, p: nat)
    requires from <= |word| && p in Greedy(word, m, from)
    ensures Reaches(word, from, p)
    decreases |word| - from
  {
    var end := LineEnd(word, m, from);
    LineEndOk(word, m, from);
    if p != end {
      GreedyCutsAtBoundaries(word, m, end, p);
      ReachesForward(word, end, p);
      GreedyInRange(word, m, end, p);
      ReachesTrans(word, from, end, p);
    }
  }

  lemma {:induction false} GreedyInRange(word: Text, m: Metrics, from: nat, p: nat)
    requires from <= |word| && p in Greedy(word, m, from)
    ensures from < p <= |word|
    decreases |word| - from
  {
    if p != LineEnd(word, m, from) {
      GreedyInRange(word, m, LineEnd(word, m, from), p);
    }
  }

  /** ... and in a line too narrow for any character every boundary is an end. */
  lemma {:induction false} NarrowLineCutsEverywhere(word: Text, m: Metrics, from: nat, p: nat)
    requires m.Valid() && (forall s :: s != [] ==> m.advance(s) > m.lineWidth) && from < p <= |word| && Reaches(word, from, p)
    ensures p in Greedy(word, m, from)
    decreases |word| - from
  {
    var next := from + CharLength(word, from);
    assert LineEnd(word, m, from) == next by {
      if next < |word| {
        assert !m.FitsInLine(CharWidth(word, m, from) + CharWidth(word, m, next));
      }
    }
    if p != next {
      ReachesForward(word, next, p);
      NarrowLineCutsEverywhere(word, m, next, p);
    }
  }

  /** A cut the loop makes separates a high surrogate from the unit that follows it. */
  ghost predicate SeparatesSurrogates(word: Text, m: Metrics) {
    exists p :: 0 < p < |word| && p in Greedy(word, m, 0) && IsHighSurrogate(word[p - 1])
  }

  /**
   No cut ever separates a high surrogate from a following unit, whatever the widths, exactly for words
   without two consecutive high surrogates followed by a further unit.
   */
  lemma CutsKeepSurrogatesIff(word: Text)
    ensures (forall m: Metrics :: m.Valid() ==> !SeparatesSurrogates(word, m)) <==> !exists k: nat :: DoubleHigh(word, k)
  {
    hide DoubleHigh, Greedy;
    if k: nat :| DoubleHigh(word, k) {
      BadCut(word, k);
    } else {
      SurrogatesKeptIff(word);
      forall m: Metrics | m.Valid() ensures !SeparatesSurrogates(word, m) {
        forall p: nat | p < |word| && p in Greedy(word, m, 0) ensures Reaches(word, 0, p) {
          GreedyCutsAtBoundaries(word, m, 0, p);
        }
      }
    }
  }

  /** In a line of no width every boundary is a cut, also the one between the two high surrogates and the rest. */
  lemma BadCut(word: Text, k: nat)
    requires DoubleHigh(word, k)
    ensures exists m: Metrics :: m.Valid() && SeparatesSurrogates(word, m)
  {
    DoubleHighCut(word, k);
    hide DoubleHigh, Greedy, Reaches;
    var p: nat :| 0 < p < |word| && Reaches(word, 0, p) && IsHighSurrogate(word[p - 1]);
    var m := Metrics(s => 1.0, 0.0);
    NarrowLineCutsEverywhere(word, m, 0, p);
    assert m.Valid() && SeparatesSurrogates(word, m);
  }

  // ---------------------------------------------------------------------------------------------
  // The loop
  // ---------------------------------------------------------------------------------------------

  /** The pieces a list of ends stands for. */
  function Pieces(word: Text, from: nat, ends: seq<nat>): seq<Text>
    decreases |ends|
  {
    if ends == [] then []
    else if from <= ends[0] <= |word| then [word[from..ends[0]]] + Pieces(word, ends[0], ends[1..])
    else []
  }

  function Concat(pieces: seq<Text>): Text {
    if pieces == [] then [] else pieces[0] + Concat(pieces[1..])
  }

  lemma {:induction false} PiecesMakeTheWord(word: Text, m: Metrics, from: nat, ends: seq<nat>)
    requires from <= |word| && ValidSplit(word, m, from, ends)
    ensures Concat(Pieces(word, from, ends)) == word[from..]
    ensures |Pieces(word, from, ends)| == |ends|
    ensures forall p :: p in Pieces(word, from, ends) ==> p != []
    decreases |ends|
  {
    if ends != [] {
      PiecesMakeTheWord(word, m, ends[0], ends[1..]);
      assert word[from..] == word[from..ends[0]] + word[ends[0]..];
    }
  }

  /** The ends still to come in a line that is `width` full and has come to `at`. */
  function Remaining(word: Text, m: Metrics, at: nat, width: real): seq<nat>
    requires at <= |word|
  {
    [Extend(word, m, at, width)] + Greedy(word, m, Extend(word, m, at, width))
  }

  /** A line that is cut at `i` contributes its piece; the rest starts over at `i`. */
  lemma CutStep(word: Text, m: Metrics, wordStart: nat, i: nat, width: real)
    requires wordStart <= i < |word| && !m.FitsInLine(width + CharWidth(word, m, i))
    ensures Pieces(word, wordStart, Remaining(word, m, i, width))
            == [word[wordStart..i]] + Pieces(word, i, Remaining(word, m, i + CharLength(word, i), CharWidth(word, m, i)))
  {
    var rest := Remaining(word, m, i + CharLength(word, i), CharWidth(word, m, i));
    assert Greedy(word, m, i) == rest;
    assert ([i] + rest)[1..] == rest;
  }

  lemma LastPiece(word: Text, m: Metrics, wordStart: nat, width: real)
    requires wordStart <= |word|
    ensures Pieces(word, wordStart, Remaining(word, m, |word|, width)) == [word[wordStart..]]
  {
    assert Remaining(word, m, |word|, width) == [|word|];
    assert [|word|][1..] == [] && word[wordStart..|word|] == word[wordStart..];
    assert Pieces(word, wordStart, [|word|]) == [word[wordStart..|word|]] + Pieces(word, |word|, [|word|][1..]);
  }

  /** Whether the loop starts with an empty piece. */
  function Lead(word: Text, m: Metrics): seq<Text>
    requires word != []
  {
    if m.FitsInLine(CharWidth(word, m, 0)) then [] else [[]]
  }

  /** What the loop emits makes up the word, and starts with an empty piece exactly if the first character is too wide. */
  lemma EmptyPieceIff(word: Text, m: Metrics)
    requires word != [] && m.Valid()
    ensures var pieces := Lead(word, m) + Pieces(word, 0, Greedy(word, m, 0));
            pieces != [] && Concat(pieces) == word && (pieces[0] == [] <==> m.lineWidth < CharWidth(word, m, 0))
  {
    GreedyIsBest(word, m);
    var end := LineEnd(word, m, 0);
    assert Greedy(word, m, 0) == [end] + Greedy(word, m, end);
    assert Pieces(word, 0, Greedy(word, m, 0))[0] == word[0..end];
  }

  lemma LeadIsEmpty(word: Text, m: Metrics, pieces: seq<Text>)
    requires word != []
    ensures Concat(Lead(word, m) + pieces) == Concat(pieces)
  {
    if !m.FitsInLine(CharWidth(word, m, 0)) {
      assert ([[]] + pieces)[1..] == pieces;
    } else {
      assert [] + pieces == pieces;
    }
  }

  /** What the loop has emitted, together with what its current line and the rest will emit, is the result. */
  ghost predicate OnTrack(word: Text, m: Metrics, pieces: seq<Text>, wordStart: nat, i: nat, width: real)
    requires word != []
  {
    && wordStart <= i <= |word|
    && if i == 0 then pieces == [] && width == 0.0
       else pieces + Pieces(word, wordStart, Remaining(word, m, i, width))
            == Lead(word, m) + Pieces(word, 0, Greedy(word, m, 0))
  }

  lemma FirstLine(word: Text, m: Metrics)
    requires word != []
    ensures Greedy(word, m, 0) == Remaining(word, m, CharLength(word, 0), CharWidth(word, m, 0))
  {
  }

  lemma SameLine(word: Text, m: Metrics, i: nat, width: real)
    requires i < |word| && m.FitsInLine(width + CharWidth(word, m, i))
    ensures Remaining(word, m, i, width)
            == Remaining(word, m, i + CharLength(word, i), width + CharWidth(word, m, i))
  {
  }

  lemma OnTrackFits(
    word: Text, m: Metrics, pieces: seq<Text>, wordStart: nat, i: nat, width: real, next: nat, longer: real)
    requires i < |word| && next == i + CharLength(word, i) && longer == width + CharWidth(word, m, i)
    requires OnTrack(word, m, pieces, wordStart, i, width) && m.FitsInLine(longer)
    ensures OnTrack(word, m, pieces, wordStart, next, longer)
  {
    hide Pieces, Extend, Greedy;
    if i == 0 {
      FirstLine(word, m);
    } else {
      SameLine(word, m, i, width);
    }
  }

  lemma OnTrackCut(
    word: Text, m: Metrics, pieces: seq<Text>, wordStart: nat, i: nat, width: real, next: nat, first: real)
    requires i < |word| && next == i + CharLength(word, i) && first == CharWidth(word, m, i)
    requires OnTrack(word, m, pieces, wordStart, i, width) && !m.FitsInLine(width + first)
    ensures OnTrack(word, m, pieces + [word[wordStart..i]], i, next, first)
  {
    if i == 0 {
      assert Greedy(word, m, 0) == Remaining(word, m, CharLength(word, 0), CharWidth(word, m, 0));
      assert pieces + [word[wordStart..i]] == [[]];
    } else {
      CutStep(word, m, wordStart, i, width);
      var rest := Pieces(word, i, Remaining(word, m, i + CharLength(word, i), CharWidth(word, m, i)));
      assert pieces + [word[wordStart..i]] + rest == pieces + ([word[wordStart..i]] + rest);
    }
  }

  lemma OnTrackDone(word: Text, m: Metrics, pieces: seq<Text>, wordStart: nat, width: real)
    requires word != [] && OnTrack(word, m, pieces, wordStart, |word|, width)
    ensures wordStart <= |word|
    ensures pieces + [word[wordStart..]] == Lead(word, m) + Pieces(word, 0, Greedy(word, m, 0))
  {
    LastPiece(word, m, wordStart, width);
  }

  /** The split the loop produces is acceptable, makes up the word, and no acceptable split is shorter. */
  lemma GreedyIsBest(word: Text, m: Metrics)
    requires m.Valid()
    ensures ValidSplit(word, m, 0, Greedy(word, m, 0))
    ensures word != [] ==> Concat(Lead(word, m) + Pieces(word, 0, Greedy(word, m, 0))) == word
    ensures forall ends :: ValidSplit(word, m, 0, ends) ==> |Greedy(word, m, 0)| <= |ends|
  {
    GreedyIsValid(word, m, 0);
    PiecesMakeTheWord(word, m, 0, Greedy(word, m, 0));
    if word != [] {
      LeadIsEmpty(word, m, Pieces(word, 0, Greedy(word, m, 0)));
    }
    forall ends | ValidSplit(word, m, 0, ends) ensures |Greedy(word, m, 0)| <= |ends| {
      GreedyIsFewest(word, m, 0, 0, ends);
    }
  }

  /** The character at `i`: how many units it takes, and its advance. */
  method Measure(word: Text, m: Metrics, i: nat) returns (length: nat, charWidth: real)
    requires i < |word|
    ensures length == CharLength(word, i)
    ensures charWidth == CharWidth(word, m, i)
    ensures length == (if i + 1 < |word| && 0xD800 <= word[i] <= 0xDBFF then 2 else 1)
    ensures charWidth == m.advance(word[i..i + length])
  {
    var isSurrogate := |word| > i + 1 && IsHighSurrogate(word[i]);
    length := if isSurrogate then 2 else 1;
    assert word[i..i + 1] == [word[i]];
    charWidth := if isSurrogate then m.advance(word[i..i + 2]) else m.advance([word[i]]);
  }

  /**
   The wrapping loop on a fresh line: one piece per line. When not even the first character fits, an
   empty piece comes first; what follows are the fewest pieces possible.
   */
  method Wrap(word: Text, m: Metrics) returns (pieces: seq<Text>)
    requires word != [] && m.Valid()
    ensures pieces == Lead(word, m) + Pieces(word, 0, Greedy(word, m, 0))
  {
    pieces := [];
    hide Pieces, Remaining, Greedy, Lead;
    var wordStart, width, i := 0, 0.0, 0;
    while i < |word|
      invariant OnTrack(word, m, pieces, wordStart, i, width)
      decreases |word| - i
    {
      var length, charWidth := Measure(word, m, i);
      if !m.FitsInLine(width + charWidth) {
        OnTrackCut(word, m, pieces, wordStart, i, width, i + length, charWidth);
        pieces := pieces + [word[wordStart..i]];
        wordStart := i;
        width := charWidth;
      } else {
        OnTrackFits(word, m, pieces, wordStart, i, width, i + length, width + charWidth);
        width := width + charWidth;
      }
      i := i + length;
    }
    OnTrackDone(word, m, pieces, wordStart, width);
    pieces := pieces + [word[wordStart..]];
  }
}
