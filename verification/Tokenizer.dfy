/**
 Splitting a message into words and special items (emotes and GIFs whose positions the server
 states): the scanning loop, and what makes a token list the tokenization of a text.
 */
module Tokenizer {
  import opened Prelude

  const SPACE: CodeUnit := 0x20

  /** An item occupies `length` units from `start` on. */
  datatype Special = Special(start: nat, length: nat)

  /** A word, or the `index`-th special; both as positions in the text. */
  datatype Token =
    | Word(from: nat, to: nat)
    | Item(index: nat, from: nat, to: nat, trailingSpace: bool)

  predicate AllSpaces(text: Text, from: nat, to: nat)
    requires to <= |text|
  {
    forall i :: from <= i < to ==> text[i] == SPACE
  }

  predicate NoSpaces(text: Text, from: nat, to: nat)
    requires to <= |text|
  {
    forall i :: from <= i < to ==> text[i] != SPACE
  }

  // ---------------------------------------------------------------------------------------------
  // What a tokenization is
  // ---------------------------------------------------------------------------------------------

  /** Where the token before position `i` of the list ends. */
  function EndBefore(tokens: seq<Token>, i: nat): nat
    requires i <= |tokens|
  {
    if i == 0 then 0 else tokens[i - 1].to
  }

  /** How many items there are among the first `i` tokens. */
  function Items(tokens: seq<Token>, i: nat): nat
    requires i <= |tokens|
  {
    if i == 0 then 0 else Items(tokens, i - 1) + if tokens[i - 1].Item? then 1 else 0
  }

  predicate AfterWord(tokens: seq<Token>, i: nat)
    requires i <= |tokens|
  {
    0 < i && tokens[i - 1].Word?
  }

  /** Token `i` follows its predecessor with nothing but spaces between them. */
  ghost predicate TokenOk(text: Text, specials: seq<Special>, tokens: seq<Token>, i: nat)
    requires i < |tokens|
  {
    var t := tokens[i];
    && EndBefore(tokens, i) <= t.from <= t.to <= |text|
    && AllSpaces(text, EndBefore(tokens, i), t.from)
    && match t
       case Word(from, to) =>
         // a non-empty run of non-spaces that does not continue the previous word
         from < to && NoSpaces(text, from, to) && (AfterWord(tokens, i) ==> EndBefore(tokens, i) < from)
       case Item(k, from, to, trailingSpace) =>
         // the next special, and whether a space or the end follows
         && k == Items(tokens, i) && k < |specials|
         && from == specials[k].start && to == from + specials[k].length
         && (trailingSpace <==> to == |text| || text[to] == SPACE)
  }

  ghost predicate TokensOk(text: Text, specials: seq<Special>, tokens: seq<Token>) {
    forall i :: 0 <= i < |tokens| ==> TokenOk(text, specials, tokens, i)
  }

  /** The first `k` specials, in order, and words cover everything up to `at` but the spaces between them. */
  ghost predicate Tokenized(text: Text, specials: seq<Special>, tokens: seq<Token>, at: nat, k: nat) {
    && TokensOk(text, specials, tokens) && Items(tokens, |tokens|) == k <= |specials|
    && EndBefore(tokens, |tokens|) <= at <= |text| && AllSpaces(text, EndBefore(tokens, |tokens|), at)
  }

  /** All specials, in order, and maximal words cover everything but the spaces between them. */
  ghost predicate IsTokenization(text: Text, specials: seq<Special>, tokens: seq<Token>) {
    Tokenized(text, specials, tokens, |text|, |specials|)
  }

  // ---------------------------------------------------------------------------------------------
  // Order
  // ---------------------------------------------------------------------------------------------

  lemma {:induction false} TokensInOrder(text: Text, specials: seq<Special>, tokens: seq<Token>, i: nat, j: nat)
    requires TokensOk(text, specials, tokens) && i < j < |tokens|
    ensures tokens[i].to <= tokens[j].from && EndBefore(tokens, i + 1) <= EndBefore(tokens, j)
    decreases j
  {
    assert TokenOk(text, specials, tokens, j);
    if i + 1 < j {
      TokensInOrder(text, specials, tokens, i, j - 1);
      assert TokenOk(text, specials, tokens, j - 1);
    }
  }

  /** The `k`-th item is somewhere in a list that has more than `k` items. */
  lemma {:induction false} FindItem(text: Text, specials: seq<Special>, tokens: seq<Token>, n: nat, k: nat) returns (i: nat)
    requires TokensOk(text, specials, tokens) && n <= |tokens| && k < Items(tokens, n)
    ensures i < n && tokens[i].Item? && Items(tokens, i) == k && tokens[i].index == k
    decreases n
  {
    if Items(tokens, n - 1) <= k {
      i := n - 1;
      assert TokenOk(text, specials, tokens, i);
    } else {
      i := FindItem(text, specials, tokens, n - 1, k);
    }
  }

  lemma {:induction false} ItemsMonotone(tokens: seq<Token>, i: nat, j: nat)
    requires i <= j <= |tokens|
    ensures Items(tokens, i) <= Items(tokens, j)
    decreases j
  {
    if i < j {
      ItemsMonotone(tokens, i, j - 1);
    }
  }

  /** A special not among the first `i` tokens starts no earlier than they end. */
  lemma SpecialComesLater(text: Text, specials: seq<Special>, tokens: seq<Token>, i: nat, k: nat) returns (j: nat)
    requires IsTokenization(text, specials, tokens)
    requires i <= |tokens| && Items(tokens, i) <= k < |specials|
    ensures i <= j < |tokens| && tokens[j].Item? && tokens[j].index == k && tokens[j].from == specials[k].start
    ensures EndBefore(tokens, i) <= specials[k].start
  {
    j := FindItem(text, specials, tokens, |tokens|, k);
    assert TokenOk(text, specials, tokens, j);
    if j < i {
      ItemsMonotone(tokens, j + 1, i);
    }
    if 0 < i {
      TokensInOrder(text, specials, tokens, i - 1, j);
    }
  }

  /** Every special is one token, with its place in the text and whether a space or the end follows. */
  lemma SpecialIsOneToken(text: Text, specials: seq<Special>, tokens: seq<Token>, k: nat)
    requires IsTokenization(text, specials, tokens) && k < |specials|
    ensures var from, to := specials[k].start, specials[k].start + specials[k].length;
            && to <= |text|
            && exists i :: 0 <= i < |tokens| && tokens[i] == Item(k, from, to, to == |text| || text[to] == SPACE)
                           && forall j :: 0 <= j < |tokens| && tokens[j].Item? && tokens[j].index == k ==> j == i
  {
    var i := FindItem(text, specials, tokens, |tokens|, k);
    assert TokenOk(text, specials, tokens, i);
    forall j | 0 <= j < |tokens| && tokens[j].Item? && tokens[j].index == k ensures j == i {
      assert TokenOk(text, specials, tokens, j);
      if j < i {
        ItemsMonotone(tokens, j + 1, i);
      } else if i < j {
        ItemsMonotone(tokens, i + 1, j);
      }
    }
  }

  // ---------------------------------------------------------------------------------------------
  // There is only one tokenization
  // ---------------------------------------------------------------------------------------------

  /** Behind a word comes a space, the next special, or the end of the text. */
  lemma WordIsMaximal(text: Text, specials: seq<Special>, tokens: seq<Token>, i: nat)
    requires IsTokenization(text, specials, tokens) && i < |tokens| && tokens[i].Word?
    ensures var to := tokens[i].to;
            to <= |text| && (to < |text| && text[to] != SPACE ==>
              Items(tokens, i) < |specials| && specials[Items(tokens, i)].start == to)
    ensures 0 < tokens[i].from <= |text| && text[tokens[i].from - 1] != SPACE ==>
              0 < i && tokens[i - 1].Item? && tokens[i - 1].to == tokens[i].from
  {
    assert TokenOk(text, specials, tokens, i);
    assert Items(tokens, i + 1) == Items(tokens, i);
    if i + 1 < |tokens| {
      assert TokenOk(text, specials, tokens, i + 1);
    }
  }

  /** Two tokenizations that agree on the first `i` tokens agree on the next one. */
  lemma NextTokenAgrees(text: Text, specials: seq<Special>, a: seq<Token>, b: seq<Token>, i: nat)
    requires IsTokenization(text, specials, a) && IsTokenization(text, specials, b)
    requires i < |a| && i <= |b| && a[..i] == b[..i]
    ensures i < |b| && a[i] == b[i]
  {
    PrefixFacts(a, b, i);
    assert TokenOk(text, specials, a, i);
    WordStarts(text, specials, a, i);
    if i == |b| {
      assert false;
    }
    assert TokenOk(text, specials, b, i);
    WordStarts(text, specials, b, i);
    WordNotBeforeItem(text, specials, b, a, i);
    WordNotBeforeItem(text, specials, a, b, i);
    if a[i].Word? {
      assert a[i].from == b[i].from;
      WordsEndTogether(text, specials, a, b, i);
      WordsEndTogether(text, specials, b, a, i);
    }
  }

  lemma WordStarts(text: Text, specials: seq<Special>, tokens: seq<Token>, i: nat)
    requires TokensOk(text, specials, tokens) && i < |tokens|
    ensures tokens[i].Word? ==> tokens[i].from < |text| && text[tokens[i].from] != SPACE
  {
    assert TokenOk(text, specials, tokens, i);
  }

  lemma {:induction false} PrefixFacts(a: seq<Token>, b: seq<Token>, i: nat)
    requires i <= |a| && i <= |b| && a[..i] == b[..i]
    ensures EndBefore(a, i) == EndBefore(b, i) && Items(a, i) == Items(b, i) && AfterWord(a, i) == AfterWord(b, i)
    decreases i
  {
    if 0 < i {
      assert a[i - 1] == a[..i][i - 1] == b[..i][i - 1] == b[i - 1];
      assert a[..i - 1] == a[..i][..i - 1] == b[..i][..i - 1] == b[..i - 1];
      PrefixFacts(a, b, i - 1);
    }
  }

  /** `a` cannot go on with a word where `b` goes on with an item. */
  lemma WordNotBeforeItem(text: Text, specials: seq<Special>, a: seq<Token>, b: seq<Token>, i: nat)
    requires IsTokenization(text, specials, a) && IsTokenization(text, specials, b)
    requires i < |a| && i < |b| && EndBefore(a, i) == EndBefore(b, i) && Items(a, i) == Items(b, i)
    ensures !(a[i].Word? && b[i].Item?)
  {
    assert TokenOk(text, specials, a, i) && TokenOk(text, specials, b, i);
    WordStarts(text, specials, a, i);
    if a[i].Word? && b[i].Item? {
      var j := SpecialComesLater(text, specials, a, i + 1, b[i].index);
    }
  }

  lemma WordsEndTogether(text: Text, specials: seq<Special>, a: seq<Token>, b: seq<Token>, i: nat)
    requires IsTokenization(text, specials, a) && IsTokenization(text, specials, b)
    requires i < |a| && i < |b| && Items(a, i) == Items(b, i)
    requires a[i].Word? && b[i].Word? && a[i].from == b[i].from
    ensures b[i].to <= a[i].to
  {
    assert TokenOk(text, specials, b, i) && TokenOk(text, specials, a, i);
    WordIsMaximal(text, specials, a, i);
    if a[i].to < b[i].to {
      var j := SpecialComesLater(text, specials, b, i + 1, Items(a, i));
    }
  }

  /** A text and its specials have at most one tokenization. */
  lemma {:induction false} TokenizationUnique(text: Text, specials: seq<Special>, a: seq<Token>, b: seq<Token>)
    requires IsTokenization(text, specials, a) && IsTokenization(text, specials, b)
    ensures a == b
  {
    var i := 0;
    while i < |a|
      invariant i <= |a| && i <= |b| && a[..i] == b[..i]
    {
      NextTokenAgrees(text, specials, a, b, i);
      assert a[..i + 1] == a[..i] + [a[i]] && b[..i + 1] == b[..i] + [b[i]];
      i := i + 1;
    }
    if |a| < |b| {
      assert b[..|a|] == a[..|a|];
      NextTokenAgrees(text, specials, b, a, |a|);
    }
    assert a[..|a|] == a && b[..|b|] == b;
  }

  // ---------------------------------------------------------------------------------------------
  // Nothing is lost
  // ---------------------------------------------------------------------------------------------

  predicate InSpecial(specials: seq<Special>, p: nat) {
    exists k :: 0 <= k < |specials| && specials[k].start <= p < specials[k].start + specials[k].length
  }

  /** The text from `from` to `to` minus the spaces outside specials. */
  function Kept(text: Text, specials: seq<Special>, from: nat, to: nat): Text
    requires to <= |text|
    decreases |text| - from
  {
    if from >= to then []
    else (if text[from] != SPACE || InSpecial(specials, from) then [text[from]] else [])
         + Kept(text, specials, from + 1, to)
  }

  lemma {:induction false} KeptSplits(text: Text, specials: seq<Special>, a: nat, b: nat, c: nat)
    requires a <= b <= c <= |text|
    ensures Kept(text, specials, a, c) == Kept(text, specials, a, b) + Kept(text, specials, b, c)
    decreases b - a
  {
    if a < b {
      KeptSplits(text, specials, a + 1, b, c);
    }
  }

  lemma {:induction false} KeptAll(text: Text, specials: seq<Special>, a: nat, b: nat)
    requires a <= b <= |text| && forall p :: a <= p < b ==> text[p] != SPACE || InSpecial(specials, p)
    ensures Kept(text, specials, a, b) == text[a..b]
    decreases b - a
  {
    if a < b {
      KeptAll(text, specials, a + 1, b);
    }
  }

  lemma {:induction false} KeptNone(text: Text, specials: seq<Special>, a: nat, b: nat)
    requires a <= b <= |text| && forall p :: a <= p < b ==> text[p] == SPACE && !InSpecial(specials, p)
    ensures Kept(text, specials, a, b) == []
    decreases b - a
  {
    if a < b {
      KeptNone(text, specials, a + 1, b);
    }
  }

  /** The slices of the first `n` tokens, one after the other. */
  function Slices(text: Text, tokens: seq<Token>, n: nat): Text
    requires n <= |tokens|
  {
    if n == 0 then []
    else Slices(text, tokens, n - 1)
         + if tokens[n - 1].from <= tokens[n - 1].to <= |text| then text[tokens[n - 1].from..tokens[n - 1].to] else []
  }

  /** The spaces in front of token `i`, or behind the last one, belong to no special. */
  lemma GapIsPlain(text: Text, specials: seq<Special>, tokens: seq<Token>, i: nat, p: nat)
    requires IsTokenization(text, specials, tokens) && i <= |tokens|
    requires EndBefore(tokens, i) <= p < if i < |tokens| then tokens[i].from else |text|
    ensures !InSpecial(specials, p)
  {
    forall k | 0 <= k < |specials| ensures !(specials[k].start <= p < specials[k].start + specials[k].length) {
      var j := FindItem(text, specials, tokens, |tokens|, k);
      assert TokenOk(text, specials, tokens, j);
      if j < i {
        if j + 1 < i {
          TokensInOrder(text, specials, tokens, j, i - 1);
          assert TokenOk(text, specials, tokens, i - 1);
        }
      } else if i < j {
        TokensInOrder(text, specials, tokens, i, j);
        assert TokenOk(text, specials, tokens, i);
      }
    }
  }

  /** A token adds its slice, and all of that is kept. */
  lemma TokenIsKept(text: Text, specials: seq<Special>, tokens: seq<Token>, i: nat)
    requires IsTokenization(text, specials, tokens) && i < |tokens|
    ensures EndBefore(tokens, i) <= tokens[i].from <= tokens[i].to <= |text|
    ensures Kept(text, specials, EndBefore(tokens, i), tokens[i].from) == []
    ensures Kept(text, specials, tokens[i].from, tokens[i].to) == text[tokens[i].from..tokens[i].to]
  {
    var e, t := EndBefore(tokens, i), tokens[i];
    assert TokenOk(text, specials, tokens, i);
    forall p | e <= p < t.from ensures !InSpecial(specials, p) {
      GapIsPlain(text, specials, tokens, i, p);
    }
    hide Kept, IsTokenization;
    KeptNone(text, specials, e, t.from);
    forall p | t.from <= p < t.to ensures text[p] != SPACE || InSpecial(specials, p) {
      if t.Item? {
        assert specials[t.index].start <= p < specials[t.index].start + specials[t.index].length;
      }
    }
    KeptAll(text, specials, t.from, t.to);
  }

  lemma SlicesStep(text: Text, tokens: seq<Token>, n: nat)
    requires 0 < n <= |tokens| && tokens[n - 1].from <= tokens[n - 1].to <= |text|
    ensures Slices(text, tokens, n) == Slices(text, tokens, n - 1) + text[tokens[n - 1].from..tokens[n - 1].to]
    ensures EndBefore(tokens, n) == tokens[n - 1].to
  {
  }

  lemma NoSlices(text: Text, specials: seq<Special>, tokens: seq<Token>)
    ensures EndBefore(tokens, 0) == 0 && Slices(text, tokens, 0) == [] == Kept(text, specials, 0, 0)
  {
  }

  lemma {:induction false} SlicesAreKept(text: Text, specials: seq<Special>, tokens: seq<Token>, n: nat)
    requires IsTokenization(text, specials, tokens) && n <= |tokens|
    ensures EndBefore(tokens, n) <= |text|
    ensures Slices(text, tokens, n) == Kept(text, specials, 0, EndBefore(tokens, n))
    decreases n
  {
    if n > 0 {
      var i, t := n - 1, tokens[n - 1];
      SlicesAreKept(text, specials, tokens, i);
      TokenIsKept(text, specials, tokens, i);
      SlicesStep(text, tokens, n);
      hide *;
      KeptSplits(text, specials, 0, EndBefore(tokens, i), t.from);
      KeptSplits(text, specials, 0, t.from, t.to);
      assert Kept(text, specials, 0, EndBefore(tokens, i)) + [] == Kept(text, specials, 0, EndBefore(tokens, i));
    } else {
      NoSlices(text, specials, tokens);
    }
  }

  /** All slices in order are the text minus the spaces outside specials. */
  lemma NothingIsLost(text: Text, specials: seq<Special>, tokens: seq<Token>)
    requires IsTokenization(text, specials, tokens)
    ensures Slices(text, tokens, |tokens|) == Kept(text, specials, 0, |text|)
  {
    var n := |tokens|;
    var e := EndBefore(tokens, n);
    SlicesAreKept(text, specials, tokens, n);
    forall p | e <= p < |text| ensures !InSpecial(specials, p) {
      GapIsPlain(text, specials, tokens, n, p);
    }
    KeptNone(text, specials, e, |text|);
    KeptSplits(text, specials, 0, e, |text|);
  }

  // ---------------------------------------------------------------------------------------------
  // The loop
  // ---------------------------------------------------------------------------------------------

  /** Where special `k` may start at the earliest. */
  function Earliest(specials: seq<Special>, k: nat): nat
    requires k <= |specials|
  {
    if k == 0 then 0 else specials[k - 1].start + specials[k - 1].length
  }

  /** Special `k` starts inside the text and not before the end of its predecessor. */
  predicate InPlace(text: Text, specials: seq<Special>, k: nat)
    requires k < |specials|
  {
    Earliest(specials, k) <= specials[k].start < |text|
  }

  /** How many specials the scan reaches: one that is out of place blocks all that follow. */
  function Reached(text: Text, specials: seq<Special>, k: nat): (n: nat)
    requires k <= |specials|
    ensures k <= n <= |specials|
    decreases |specials| - k
  {
    if k == |specials| || !InPlace(text, specials, k) then k else Reached(text, specials, k + 1)
  }

  /**
   Every special is reached exactly when they are sorted, disjoint and start inside the text; otherwise
   the first one that is out of place is the first one not reached.
   */
  lemma {:induction false} AllReachedIff(text: Text, specials: seq<Special>, k: nat)
    requires k <= |specials|
    ensures Reached(text, specials, k) == |specials| <==> forall i :: k <= i < |specials| ==> InPlace(text, specials, i)
    ensures var n := Reached(text, specials, k);
            && (forall i :: k <= i < n ==> InPlace(text, specials, i))
            && (n < |specials| ==>
                  || specials[n].start < (if n == 0 then 0 else specials[n - 1].start + specials[n - 1].length)
                  || |text| <= specials[n].start)
    decreases |specials| - k
  {
    if k < |specials| && InPlace(text, specials, k) {
      AllReachedIff(text, specials, k + 1);
    }
  }

  /** Appending a token keeps the judgement on the earlier ones. */
  lemma {:induction false} ItemsOfLonger(tokens: seq<Token>, t: Token, i: nat)
    requires i <= |tokens|
    ensures Items(tokens + [t], i) == Items(tokens, i)
    decreases i
  {
    if 0 < i {
      ItemsOfLonger(tokens, t, i - 1);
    }
  }

  lemma AppendToken(text: Text, specials: seq<Special>, tokens: seq<Token>, t: Token)
    requires TokensOk(text, specials, tokens)
    requires TokenOk(text, specials, tokens + [t], |tokens|)
    ensures TokensOk(text, specials, tokens + [t])
    ensures Items(tokens + [t], |tokens| + 1) == Items(tokens, |tokens|) + if t.Item? then 1 else 0
  {
    var more := tokens + [t];
    ItemsOfLonger(tokens, t, |tokens|);
    forall i | 0 <= i < |tokens| ensures TokenOk(text, specials, more, i) {
      assert TokenOk(text, specials, tokens, i);
      ItemsOfLonger(tokens, t, i);
      assert EndBefore(more, i) == EndBefore(tokens, i) && AfterWord(more, i) == AfterWord(tokens, i);
    }
  }

  /** Items only refer to specials that have been reached. */
  lemma {:induction false} TokensOkForPrefix(text: Text, specials: seq<Special>, tokens: seq<Token>, k: nat)
    requires TokensOk(text, specials, tokens) && Items(tokens, |tokens|) <= k <= |specials|
    ensures TokensOk(text, specials[..k], tokens)
  {
    forall i | 0 <= i < |tokens| ensures TokenOk(text, specials[..k], tokens, i) {
      assert TokenOk(text, specials, tokens, i);
      ItemsMonotone(tokens, i + 1, |tokens|);
    }
  }

  /** Specials that have become tokens lie inside the text. */
  lemma SpecialsFit(text: Text, specials: seq<Special>, tokens: seq<Token>)
    requires IsTokenization(text, specials, tokens)
    ensures forall i :: 0 <= i < |specials| ==> specials[i].start + specials[i].length <= |text|
  {
    forall i | 0 <= i < |specials| ensures specials[i].start + specials[i].length <= |text| {
      var j := FindItem(text, specials, tokens, |tokens|, i);
      assert TokenOk(text, specials, tokens, j);
    }
  }

  /** The loop's knowledge at position `current`, with `wordBegin` if a word is being read. */
  ghost predicate Scanning(
    text: Text, specials: seq<Special>, tokens: seq<Token>, current: nat, wordBegin: Option<nat>, k: nat)
  {
    var e, n := EndBefore(tokens, |tokens|), |tokens|;
    && TokensOk(text, specials, tokens) && Items(tokens, n) == k <= |specials|
    && current <= |text| && e <= current
    && (wordBegin.None? ==> AllSpaces(text, e, current) && (AfterWord(tokens, n) ==> e < current))
    && (wordBegin.Some? ==>
          var w := wordBegin.value;
          && e <= w < current && AllSpaces(text, e, w) && NoSpaces(text, w, current)
          && (AfterWord(tokens, n) ==> e < w))
    && Earliest(specials, k) <= current
    && (k < |specials| && Earliest(specials, k) <= specials[k].start ==> current <= specials[k].start)
  }

  /** The same when no word is being read; the last one may just have ended. */
  ghost predicate BetweenTokens(text: Text, specials: seq<Special>, tokens: seq<Token>, current: nat, k: nat) {
    && Tokenized(text, specials, tokens, current, k) && Earliest(specials, k) <= current
    && (k < |specials| && Earliest(specials, k) <= specials[k].start ==> current <= specials[k].start)
  }

  predicate StartsHere(specials: seq<Special>, current: nat, k: nat) {
    k < |specials| && current == specials[k].start
  }

  lemma ScanStart(text: Text, specials: seq<Special>)
    ensures Scanning(text, specials, [], 0, None, 0)
  {
  }

  lemma ScanUnit(text: Text, specials: seq<Special>, tokens: seq<Token>, current: nat, wordBegin: Option<nat>, k: nat)
    requires Scanning(text, specials, tokens, current, wordBegin, k) && current < |text|
    requires text[current] != SPACE && !StartsHere(specials, current, k)
    ensures Scanning(text, specials, tokens, current + 1, Some(if wordBegin.Some? then wordBegin.value else current), k)
  {
  }

  lemma ScanSpace(text: Text, specials: seq<Special>, tokens: seq<Token>, current: nat, k: nat)
    requires BetweenTokens(text, specials, tokens, current, k) && current < |text|
    requires text[current] == SPACE && !StartsHere(specials, current, k)
    ensures Scanning(text, specials, tokens, current + 1, None, k)
  {
  }

  lemma ScanItem(text: Text, specials: seq<Special>, tokens: seq<Token>, current: nat, k: nat, t: Token)
    requires BetweenTokens(text, specials, tokens, current, k) && current < |text| && StartsHere(specials, current, k)
    requires var to := current + specials[k].length;
             to <= |text| && t == Item(k, current, to, to == |text| || text[to] == SPACE)
    ensures Scanning(text, specials, tokens + [t], t.to, None, k + 1)
  {
    ItemsOfLonger(tokens, t, |tokens|);
    AppendToken(text, specials, tokens, t);
    hide TokensOk, Items;
    assert (tokens + [t])[|tokens|] == t;
  }

  lemma ReachesItem(text: Text, specials: seq<Special>, tokens: seq<Token>, current: nat, k: nat)
    requires BetweenTokens(text, specials, tokens, current, k) && current < |text| && StartsHere(specials, current, k)
    ensures k < Reached(text, specials, k) == Reached(text, specials, k + 1)
    ensures Tokenized(text, specials, tokens, specials[k].start, k)
    ensures current + specials[k].length > |text| ==> Reached(text, specials, k) == k + 1
  {
    hide Tokenized;
  }

  /** At the end of the text what has been read is the tokenization for the reached specials. */
  lemma ScanEnd(text: Text, specials: seq<Special>, tokens: seq<Token>, k: nat)
    requires BetweenTokens(text, specials, tokens, |text|, k)
    ensures Reached(text, specials, k) == k && IsTokenization(text, specials[..k], tokens)
    ensures forall i :: 0 <= i < k ==> specials[i].start + specials[i].length <= |text|
  {
    TokensOkForPrefix(text, specials, tokens, k);
    hide TokensOk, Items;
    SpecialsFit(text, specials[..k], tokens);
    assert forall i :: 0 <= i < k ==> specials[..k][i] == specials[i];
  }

  /** Ends the word that is being read, if any. */
  method EndWord(text: Text, specials: seq<Special>, tokens: seq<Token>, current: nat, wordBegin: Option<nat>, ghost k: nat)
    returns (more: seq<Token>)
    requires Scanning(text, specials, tokens, current, wordBegin, k)
    ensures BetweenTokens(text, specials, more, current, k)
    ensures more == if wordBegin.Some? then tokens + [Word(wordBegin.value, current)] else tokens
  {
    more := tokens;
    if wordBegin.Some? {
      more := tokens + [Word(wordBegin.value, current)];
      AppendToken(text, specials, tokens, Word(wordBegin.value, current));
    }
  }

  /**
   The scanning loop. It always terminates; `ok` is false exactly if it meets a special that reaches
   beyond the text, which the code treats as a fault of its caller. That is then the last one reached, and
   everything in front of it has been tokenized.
   */
  method TokenizeWords(text: Text, specials: seq<Special>) returns (tokens: seq<Token>, ok: bool)
    ensures var reached := Reached(text, specials, 0);
            !ok ==> 0 < reached && Tokenized(text, specials, tokens, specials[reached - 1].start, reached - 1)
    ensures ok ==> IsTokenization(text, specials[..Reached(text, specials, 0)], tokens)
    ensures ok <==> forall i :: 0 <= i < Reached(text, specials, 0) ==> specials[i].start + specials[i].length <= |text|
  {
    hide BetweenTokens, IsTokenization, Reached, Tokenized;
    tokens := [];
    var current, k := 0, 0;
    var wordBegin: Option<nat> := None;
    ScanStart(text, specials);
    while current != |text|
      invariant Scanning(text, specials, tokens, current, wordBegin, k)
      invariant Reached(text, specials, 0) == Reached(text, specials, k)
      decreases |text| - current, |specials| - k
    {
      hide Scanning;
      var isSpecial := k < |specials| && current == specials[k].start;
      var isSpace := text[current] == SPACE;
      if isSpecial || isSpace {
        tokens := EndWord(text, specials, tokens, current, wordBegin, k);
        wordBegin := None;
      }
      if isSpecial {
        var special := specials[k];
        ReachesItem(text, specials, tokens, current, k);
        if current + special.length > |text| {
          return tokens, false;
        }
        var from := current;
        current := current + special.length;
        var trailingSpace := current == |text| || text[current] == SPACE;
        ScanItem(text, specials, tokens, from, k, Item(k, from, current, trailingSpace));
        tokens := tokens + [Item(k, from, current, trailingSpace)];
        k := k + 1;
        continue;
      }
      if isSpace {
        ScanSpace(text, specials, tokens, current, k);
      } else {
        ScanUnit(text, specials, tokens, current, wordBegin, k);
      }
      if !isSpace && wordBegin.None? {
        wordBegin := Some(current);
      }
      current := current + 1;
    }
    tokens := EndWord(text, specials, tokens, current, wordBegin, k);
    ScanEnd(text, specials, tokens, k);
    return tokens, true;
  }
}
