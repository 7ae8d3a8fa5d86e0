/**
 Bits accounting while a message is built: each cheer word takes its amount from the message's bits
 tag; a word that asks for more than is left is rewritten to a smaller amount and tried again.
 */
module Cheermotes {
  import opened Prelude
  import opened Decimal

  datatype Tier = Tier(minBits: int, hasStatic: bool, hasAnimated: bool, hasColor: bool)

  /** A prefix with its tiers, most expensive first. A word matches as prefix plus a number without leading zero. */
  datatype CheerSet = CheerSet(prefix: Text, tiers: seq<Tier>)

  /** The channel's sets in order, and which units are the same letter up to case. */
  datatype Catalog = Catalog(sets: seq<CheerSet>, sameLetter: (CodeUnit, CodeUnit) -> bool)

  /** A recognised cheer: the captured amount, its value and the tier it is shown with. */
  datatype Cheer = Cheer(captured: Text, value: nat, tier: Tier)

  // ---------------------------------------------------------------------------------------------
  // Lookup
  // ---------------------------------------------------------------------------------------------

  predicate Matches(sameLetter: (CodeUnit, CodeUnit) -> bool, prefix: Text, s: Text) {
    && |prefix| < |s|
    && (forall i :: 0 <= i < |prefix| ==> sameLetter(prefix[i], s[i]))
    && s[|prefix|] != ZERO && forall i :: |prefix| <= i < |s| ==> IsAsciiDigit(s[i])
  }

  /** A word matches if it is the prefix, up to case, and a positive number as it is printed. */
  lemma MatchesIff(sameLetter: (CodeUnit, CodeUnit) -> bool, prefix: Text, s: Text)
    ensures Matches(sameLetter, prefix, s) <==>
              exists amount: nat :: 0 < amount && |s| == |prefix| + |Digits(amount)| && s[|prefix|..] == Digits(amount)
                                    && forall i :: 0 <= i < |prefix| ==> sameLetter(prefix[i], s[i])
  {
    if Matches(sameLetter, prefix, s) {
      DigitsOfValue(s[|prefix|..]);
    }
    if amount: nat :| 0 < amount && |s| == |prefix| + |Digits(amount)| && s[|prefix|..] == Digits(amount)
                      && forall i :: 0 <= i < |prefix| ==> sameLetter(prefix[i], s[i]) {
      DigitsAreDigits(amount);
      assert forall i :: |prefix| <= i < |s| ==> s[i] == Digits(amount)[i - |prefix|];
    }
  }

  /** The first tier that asks for no more than `amount`. */
  function FirstTier(tiers: seq<Tier>, amount: int): Option<Tier> {
    if tiers == [] then None
    else if amount >= tiers[0].minBits then Some(tiers[0])
    else FirstTier(tiers[1..], amount)
  }

  /** `cheerEmote`: the first set that matches and has a tier for the amount. */
  function Lookup(sets: seq<CheerSet>, sameLetter: (CodeUnit, CodeUnit) -> bool, s: Text): Option<Cheer> {
    if sets == [] then None
    else if Matches(sameLetter, sets[0].prefix, s) then
      var captured := s[|sets[0].prefix|..];
      var tier := FirstTier(sets[0].tiers, ToInt(captured));
      if tier.Some? then Some(Cheer(captured, ToInt(captured), tier.value)) else Lookup(sets[1..], sameLetter, s)
    else Lookup(sets[1..], sameLetter, s)
  }

  /** The captured amount is the end of the word, and the tier asks for no more than its value. */
  ghost predicate CheerOf(s: Text, cheer: Cheer) {
    && cheer.captured != []
    && |cheer.captured| <= |s|
    && s[|s| - |cheer.captured|..] == cheer.captured
    && AllDigits(cheer.captured)
    && cheer.captured[0] != ZERO
    && cheer.value == ToInt(cheer.captured)
    && cheer.value >= cheer.tier.minBits
  }

  /** Tier `k` is the first one that asks for no more than `amount`. */
  ghost predicate IsFirstTier(tiers: seq<Tier>, amount: int, k: nat) {
    k < |tiers| && amount >= tiers[k].minBits && forall j :: 0 <= j < k ==> amount < tiers[j].minBits
  }

  /** The set matches the word and has a tier for its amount. */
  ghost predicate Recognised(set_: CheerSet, sameLetter: (CodeUnit, CodeUnit) -> bool, s: Text) {
    && Matches(sameLetter, set_.prefix, s)
    && exists tier :: tier in set_.tiers && ToInt(s[|set_.prefix|..]) >= tier.minBits
  }

  /** The cheer stems from set `i`, the first one that recognises the word, and its first affordable tier. */
  ghost predicate IsFirstChoice(
    sets: seq<CheerSet>, sameLetter: (CodeUnit, CodeUnit) -> bool, s: Text, cheer: Cheer, i: nat)
  {
    && i < |sets| && (forall h :: 0 <= h < i ==> !Recognised(sets[h], sameLetter, s))
    && Matches(sameLetter, sets[i].prefix, s) && cheer.captured == s[|sets[i].prefix|..]
    && exists k: nat :: IsFirstTier(sets[i].tiers, cheer.value, k) && cheer.tier == sets[i].tiers[k]
  }

  lemma {:induction false} FirstTierIs(tiers: seq<Tier>, amount: int)
    ensures FirstTier(tiers, amount).None? <==> forall tier :: tier in tiers ==> amount < tier.minBits
    ensures FirstTier(tiers, amount).Some? ==>
              exists k: nat :: IsFirstTier(tiers, amount, k) && FirstTier(tiers, amount).value == tiers[k]
  {
    if tiers != [] {
      FirstTierIs(tiers[1..], amount);
      if amount >= tiers[0].minBits {
        assert IsFirstTier(tiers, amount, 0);
      } else if FirstTier(tiers[1..], amount).Some? {
        var k: nat :| IsFirstTier(tiers[1..], amount, k) && FirstTier(tiers[1..], amount).value == tiers[1..][k];
        assert IsFirstTier(tiers, amount, k + 1);
      }
    }
  }

  /** A lookup fails exactly when no set recognises the word; otherwise it makes the first choice. */
  lemma {:induction false} LookupIs(sets: seq<CheerSet>, sameLetter: (CodeUnit, CodeUnit) -> bool, s: Text)
    ensures Lookup(sets, sameLetter, s).None? <==> forall set_ :: set_ in sets ==> !Recognised(set_, sameLetter, s)
    ensures Lookup(sets, sameLetter, s).Some? ==>
              && CheerOf(s, Lookup(sets, sameLetter, s).value)
              && exists i: nat :: IsFirstChoice(sets, sameLetter, s, Lookup(sets, sameLetter, s).value, i)
  {
    if sets != [] {
      FirstSet(sets, sameLetter, s);
      LookupIs(sets[1..], sameLetter, s);
      hide *;
      var found := Lookup(sets, sameLetter, s);
      assert sets == [sets[0]] + sets[1..];
      if Recognised(sets[0], sameLetter, s) {
      } else if found.Some? {
        LaterChoice(sets, sameLetter, s, found.value);
      }
    }
  }

  lemma LaterChoice(sets: seq<CheerSet>, sameLetter: (CodeUnit, CodeUnit) -> bool, s: Text, cheer: Cheer)
    requires sets != [] && !Recognised(sets[0], sameLetter, s)
    requires exists i: nat :: IsFirstChoice(sets[1..], sameLetter, s, cheer, i)
    ensures exists i: nat :: IsFirstChoice(sets, sameLetter, s, cheer, i)
  {
    var i: nat :| IsFirstChoice(sets[1..], sameLetter, s, cheer, i);
    hide Recognised, Matches, IsFirstTier;
    assert IsFirstChoice(sets, sameLetter, s, cheer, i + 1);
  }

  /** What the first set decides. */
  lemma FirstSet(sets: seq<CheerSet>, sameLetter: (CodeUnit, CodeUnit) -> bool, s: Text)
    requires sets != []
    ensures var found := Lookup(sets, sameLetter, s);
            if Recognised(sets[0], sameLetter, s)
            then found.Some? && CheerOf(s, found.value) && IsFirstChoice(sets, sameLetter, s, found.value, 0)
            else found == Lookup(sets[1..], sameLetter, s)
  {
    if Matches(sameLetter, sets[0].prefix, s) {
      FirstTierIs(sets[0].tiers, ToInt(s[|sets[0].prefix|..]));
    }
    hide FirstTier, ToInt;
  }

  // ---------------------------------------------------------------------------------------------
  // One word
  // ---------------------------------------------------------------------------------------------

  /** The word with its amount changed from `value` by what is left. */
  function Rewritten(s: Text, value: nat, bits: int): Text
    requires bits <= value && |Digits(value)| <= |s|
  {
    s[..|s| - |Digits(value)|] + Digits(value - bits)
  }

  /** A recognised amount that is not 0 is printed the way it was written. */
  lemma CapturedPrints(s: Text, cheer: Cheer)
    requires CheerOf(s, cheer) && 0 < cheer.value
    ensures cheer.captured == Digits(cheer.value) && |Digits(cheer.value)| <= |s|
    ensures s[|s| - |Digits(cheer.value)|..] == Digits(cheer.value)
  {
    DigitsOfValue(cheer.captured);
  }

  /** Rewriting makes the word as a whole worth less if bits are left ... */
  lemma LoweredValue(s: Text, value: nat, bits: int)
    requires 0 < bits <= value && |Digits(value)| <= |s| && s[|s| - |Digits(value)|..] == Digits(value)
    ensures Value(Rewritten(s, value, bits)) < Value(s)
  {
    hide *;
    RewrittenIs(s, value, bits);
    CutAt(s, |s| - |Digits(value)|);
    SmallerEnding(s[..|s| - |Digits(value)|], value - bits, value);
  }

  /** ... and more if the tag was negative. */
  lemma RaisedValue(s: Text, value: nat, bits: int)
    requires bits < 0 && |Digits(value)| <= |s| && s[|s| - |Digits(value)|..] == Digits(value)
    ensures Value(s) < Value(Rewritten(s, value, bits))
  {
    hide *;
    RewrittenIs(s, value, bits);
    CutAt(s, |s| - |Digits(value)|);
    SmallerEnding(s[..|s| - |Digits(value)|], value, value - bits);
  }

  lemma RewrittenIs(s: Text, value: nat, bits: int)
    requires bits <= value && |Digits(value)| <= |s|
    ensures Rewritten(s, value, bits) == s[..|s| - |Digits(value)|] + Digits(value - bits)
  {
  }

  /**
   A word that asks for more than is left ends in exactly the digits of its value, and lowering it
   makes the whole word worth less, whichever set it matches next.
   */
  lemma LoweredIsLess(s: Text, cheer: Cheer, bits: nat)
    requires CheerOf(s, cheer) && 0 < bits < cheer.value
    ensures |Digits(cheer.value)| <= |s| && cheer.captured == Digits(cheer.value)
    ensures s[|s| - |Digits(cheer.value)|..] == Digits(cheer.value)
    ensures Value(Rewritten(s, cheer.value, bits)) < Value(s)
  {
    hide *;
    CapturedPrints(s, cheer);
    LoweredValue(s, cheer.value, bits);
  }

  /** Two texts that end alike: a shorter end is worth no more than the longer one ... */
  lemma ShorterEnd(a: Text, tail: Text, captured: Text)
    requires |captured| <= |tail| && (a + tail)[|a + tail| - |captured|..] == captured
    ensures Value(captured) <= Value(tail)
  {
    hide *;
    var k := |tail| - |captured|;
    EndOfConcat(a, tail, |a| + k);
    assert captured == tail[k..];
    CutAt(tail, k);
    ValueConcat(tail[..k], tail[k..]);
  }

  /** ... which has something in front. */
  lemma LongerEnd(a: Text, tail: Text, captured: Text)
    requires |tail| < |captured| <= |a + tail| && (a + tail)[|a + tail| - |captured|..] == captured
    ensures Value(captured) == Shifted(Value(captured[..|captured| - |tail|]), |tail|) + Value(tail)
  {
    hide *;
    var k := |a + tail| - |captured|;
    EndOfConcat(a, tail, k);
    FrontOfConcat(a[k..], tail);
    ValueConcat(a[k..], tail);
  }

  lemma CapturedValue(s: Text, cheer: Cheer)
    requires CheerOf(s, cheer)
    ensures |cheer.captured| <= |s| && s[|s| - |cheer.captured|..] == cheer.captured
    ensures cheer.value == if Value(cheer.captured) <= INT_MAX then Value(cheer.captured) else 0
    ensures AllDigits(cheer.captured) && cheer.captured != [] && cheer.captured[0] != ZERO
  {
  }

  /** What a match is worth that captures an end of `front + tail`. */
  lemma NextValue(front: Text, tail: Text, next: Cheer)
    requires CheerOf(front + tail, next)
    ensures |next.captured| <= |tail| ==> next.value <= Value(tail)
    ensures |next.captured| > |tail| ==>
              next.value == if Value(next.captured) > INT_MAX then 0
                            else Shifted(Value(next.captured[..|next.captured| - |tail|]), |tail|) + Value(tail)
  {
    hide *;
    CapturedValue(front + tail, next);
    if |next.captured| <= |tail| {
      ShorterEnd(front, tail, next.captured);
    } else {
      LongerEnd(front, tail, next.captured);
    }
  }

  /**
   When lowering a word lowers the captured value: exactly when the next match captures nothing in
   front of the new amount, or too large a number, or so little in front that it weighs less than what
   was taken off.
   */
  lemma LoweringDropsIff(c: Catalog, s: Text, bits: nat, cheer: Cheer, next: Cheer)
    requires Lookup(c.sets, c.sameLetter, s) == Some(cheer) && 0 < bits < cheer.value
    ensures |Digits(cheer.value)| <= |s|
    ensures Lookup(c.sets, c.sameLetter, Rewritten(s, cheer.value, bits)) == Some(next) ==>
              var tail := Digits(cheer.value - bits);
              (next.value < cheer.value <==>
                || |next.captured| <= |tail|
                || Value(next.captured) > INT_MAX
                || Shifted(Value(next.captured[..|next.captured| - |tail|]), |tail|) < bits)
  {
    hide *;
    LookupIs(c.sets, c.sameLetter, s);
    LoweredIsLess(s, cheer, bits);
    var low := Rewritten(s, cheer.value, bits);
    if Lookup(c.sets, c.sameLetter, low) == Some(next) {
      LookupIs(c.sets, c.sameLetter, low);
      RewrittenIs(s, cheer.value, bits);
      ValueOfDigits(cheer.value - bits);
      NextValue(s[..|s| - |Digits(cheer.value)|], Digits(cheer.value - bits), next);
    }
  }

  /** Comparing letters up to case: a digit is only the same as itself. */
  ghost predicate CaseFolding(sameLetter: (CodeUnit, CodeUnit) -> bool) {
    && (forall x, y :: sameLetter(x, y) ==> sameLetter(y, x))
    && (forall x, y, z :: sameLetter(x, y) && sameLetter(y, z) ==> sameLetter(x, z))
    && (forall x, y :: sameLetter(x, y) && IsAsciiDigit(y) ==> x == y)
  }

  /** `long` reads like `short` continued by digits. */
  ghost predicate ContinuedByDigits(sameLetter: (CodeUnit, CodeUnit) -> bool, short: Text, long: Text) {
    && |short| < |long| && (forall i :: 0 <= i < |short| ==> sameLetter(short[i], long[i]))
    && forall i :: |short| <= i < |long| ==> IsAsciiDigit(long[i])
  }

  /** A match after lowering captures no more than the new amount, unless one prefix continues the other. */
  lemma MatchAfterLowering(sameLetter: (CodeUnit, CodeUnit) -> bool, p: Text, q: Text, s: Text, low: Text)
    requires CaseFolding(sameLetter) && Matches(sameLetter, p, s) && Matches(sameLetter, q, low)
    requires |p| <= |low| && s[..|p|] == low[..|p|]
    ensures |q| < |p| ==> ContinuedByDigits(sameLetter, q, p)
  {
    assert forall i :: 0 <= i < |p| ==> s[i] == s[..|p|][i] == low[i];
  }

  /** If no prefix is another one continued by digits, lowering always lowers the captured value. */
  lemma PlainPrefixesDrop(c: Catalog, s: Text, bits: nat, cheer: Cheer, next: Cheer)
    requires CaseFolding(c.sameLetter)
    requires forall p, q :: p in c.sets && q in c.sets ==> !ContinuedByDigits(c.sameLetter, q.prefix, p.prefix)
    requires Lookup(c.sets, c.sameLetter, s) == Some(cheer) && 0 < bits < cheer.value
    ensures |Digits(cheer.value)| <= |s|
    ensures Lookup(c.sets, c.sameLetter, Rewritten(s, cheer.value, bits)) == Some(next) ==> next.value < cheer.value
  {
    hide *;
    LookupIs(c.sets, c.sameLetter, s);
    LoweringDropsIff(c, s, bits, cheer, next);
    LoweredIsLess(s, cheer, bits);
    var low := Rewritten(s, cheer.value, bits);
    if Lookup(c.sets, c.sameLetter, low) == Some(next) {
      LookupIs(c.sets, c.sameLetter, low);
      RewrittenIs(s, cheer.value, bits);
      var i: nat :| IsFirstChoice(c.sets, c.sameLetter, s, cheer, i);
      var j: nat :| IsFirstChoice(c.sets, c.sameLetter, low, next, j);
      SamePrefix(c, s, cheer, i, low, next, j, Digits(cheer.value - bits));
    }
  }

  lemma SamePrefix(c: Catalog, s: Text, cheer: Cheer, i: nat, low: Text, next: Cheer, j: nat, tail: Text)
    requires CaseFolding(c.sameLetter)
    requires forall p, q :: p in c.sets && q in c.sets ==> !ContinuedByDigits(c.sameLetter, q.prefix, p.prefix)
    requires IsFirstChoice(c.sets, c.sameLetter, s, cheer, i) && IsFirstChoice(c.sets, c.sameLetter, low, next, j)
    requires |cheer.captured| <= |s| && low == s[..|s| - |cheer.captured|] + tail
    ensures |next.captured| <= |tail|
  {
    hide CaseFolding, ContinuedByDigits;
    var p, q := c.sets[i].prefix, c.sets[j].prefix;
    assert |s| - |cheer.captured| == |p|;
    assert c.sets[i] in c.sets && c.sets[j] in c.sets;
    MatchAfterLowering(c.sameLetter, p, q, s, low);
  }

  /** The cheer a word ends up as when `bits` are left, if any; with a negative tag there is none. */
  function Settle(c: Catalog, s: Text, bits: int): Option<Cheer>
    decreases Value(s)
  {
    if bits <= 0 then None
    else
      match Lookup(c.sets, c.sameLetter, s)
      case None => None
      case Some(cheer) =>
        if cheer.value <= bits then Some(cheer)
        else
          LookupIs(c.sets, c.sameLetter, s);
          LoweredIsLess(s, cheer, bits);
          Settle(c, Rewritten(s, cheer.value, bits), bits)
  }

  lemma SettleNothing(c: Catalog, bits: int)
    requires bits <= 0
    ensures forall s :: Settle(c, s, bits) == None
  {
  }

  lemma SettleStep(c: Catalog, s: Text, bits: int)
    requires 0 < bits
    ensures var found := Lookup(c.sets, c.sameLetter, s);
            && (found.None? ==> Settle(c, s, bits) == None)
            && (found.Some? ==> found.value.value <= INT_MAX)
            && (found.Some? && found.value.value <= bits ==> Settle(c, s, bits) == found)
            && (found.Some? && found.value.value > bits ==>
                  && |Digits(found.value.value)| <= |s|
                  && Settle(c, s, bits) == Settle(c, Rewritten(s, found.value.value, bits), bits))
  {
    LookupIs(c.sets, c.sameLetter, s);
    hide Lookup;
    var found := Lookup(c.sets, c.sameLetter, s);
    if found.Some? && found.value.value > bits {
      LoweredIsLess(s, found.value, bits);
    }
  }

  /** What a settled cheer takes is there, it meets the tier, and it is what is shown. */
  lemma {:induction false} SettleIs(c: Catalog, s: Text, bits: int)
    ensures var r := Settle(c, s, bits);
            r.Some? ==>
              && r.value.value <= bits && r.value.value == ToInt(r.value.captured)
              && r.value.value >= r.value.tier.minBits
              && exists set_ :: set_ in c.sets && r.value.tier in set_.tiers
    decreases Value(s)
  {
    LookupIs(c.sets, c.sameLetter, s);
    if bits > 0 && Lookup(c.sets, c.sameLetter, s).Some? {
      var cheer := Lookup(c.sets, c.sameLetter, s).value;
      if cheer.value > bits {
        LoweredIsLess(s, cheer, bits);
        SettleIs(c, Rewritten(s, cheer.value, bits), bits);
      }
    }
  }

  // ---------------------------------------------------------------------------------------------
  // A negative tag
  // ---------------------------------------------------------------------------------------------

  /** No tier is free. */
  ghost predicate TiersCost(sets: seq<CheerSet>) {
    forall set_, tier :: set_ in sets && tier in set_.tiers ==> tier.minBits >= 1
  }

  function LongestPrefix(sets: seq<CheerSet>): (n: nat)
    ensures forall set_ :: set_ in sets ==> |set_.prefix| <= n
  {
    if sets == [] then 0 else Max(|sets[0].prefix|, LongestPrefix(sets[1..]))
  }

  /** How far the number a word spells is from what no recognised word reaches. */
  function Room(sets: seq<CheerSet>, s: Text): nat {
    Max(0, Shifted(1, LongestPrefix(sets) + 10) - Value(s))
  }

  lemma RoomIs(sets: seq<CheerSet>, s: Text)
    ensures var top := Shifted(1, LongestPrefix(sets) + 10);
            Room(sets, s) == if Value(s) < top then top - Value(s) else 0
  {
  }

  lemma RecognisedIsShort(c: Catalog, s: Text, cheer: Cheer)
    requires TiersCost(c.sets) && Lookup(c.sets, c.sameLetter, s) == Some(cheer)
    ensures 0 < cheer.value && |s| <= LongestPrefix(c.sets) + 10
  {
    hide *;
    LookupIs(c.sets, c.sameLetter, s);
    var i: nat :| IsFirstChoice(c.sets, c.sameLetter, s, cheer, i);
    ChosenTierCosts(c, s, cheer, i);
    CapturedPrints(s, cheer);
    CapturedValue(s, cheer);
    IntDigits(cheer.value);
  }

  lemma ChosenTierCosts(c: Catalog, s: Text, cheer: Cheer, i: nat)
    requires TiersCost(c.sets) && IsFirstChoice(c.sets, c.sameLetter, s, cheer, i) && CheerOf(s, cheer)
    ensures 0 < cheer.value && |s| <= LongestPrefix(c.sets) + |cheer.captured|
  {
    assert c.sets[i] in c.sets;
    hide LongestPrefix, Value;
  }

  /** With a negative tag a word grows with every rewriting, which only goes on as long as it is recognised. */
  lemma RaisedHasLessRoom(c: Catalog, s: Text, cheer: Cheer, bits: int)
    requires TiersCost(c.sets) && Lookup(c.sets, c.sameLetter, s) == Some(cheer) && bits < 0
    ensures |Digits(cheer.value)| <= |s| && Room(c.sets, Rewritten(s, cheer.value, bits)) < Room(c.sets, s)
  {
    hide *;
    LookupIs(c.sets, c.sameLetter, s);
    RecognisedIsShort(c, s, cheer);
    CapturedPrints(s, cheer);
    RaisedValue(s, cheer.value, bits);
    ValueBelow(s);
    ShiftedMonotone(1, |s|, LongestPrefix(c.sets) + 10);
    RoomIs(c.sets, s);
    RoomIs(c.sets, Rewritten(s, cheer.value, bits));
  }

  // ---------------------------------------------------------------------------------------------
  // When the rewriting ends
  // ---------------------------------------------------------------------------------------------

  /** At most `n` rewritings until the word is not recognised, is paid for, or leaves the range of an int. */
  ghost predicate EndsWithin(c: Catalog, s: Text, bits: int, n: nat)
    decreases n
  {
    || bits == 0
    || match Lookup(c.sets, c.sameLetter, s)
       case None => true
       case Some(cheer) =>
         || cheer.value <= bits || INT_MAX < cheer.value - bits
         || (0 < n && |Digits(cheer.value)| <= |s| && EndsWithin(c, Rewritten(s, cheer.value, bits), bits, n - 1))
  }

  ghost predicate Ends(c: Catalog, s: Text, bits: int) {
    exists n: nat :: EndsWithin(c, s, bits, n)
  }

  lemma {:induction false} EndsLater(c: Catalog, s: Text, bits: int, m: nat, n: nat)
    requires m <= n && EndsWithin(c, s, bits, m)
    ensures EndsWithin(c, s, bits, n)
    decreases n
  {
    hide Lookup, Digits, Rewritten;
    if 0 < m {
      var found := Lookup(c.sets, c.sameLetter, s);
      if found.Some? && |Digits(found.value.value)| <= |s| && found.value.value > bits
         && EndsWithin(c, Rewritten(s, found.value.value, bits), bits, m - 1) {
        EndsLater(c, Rewritten(s, found.value.value, bits), bits, m - 1, n - 1);
      }
    }
  }

  /** One rewriting, and then the rest. */
  lemma EndsAfterRewriting(c: Catalog, s: Text, cheer: Cheer, bits: int, m: nat, n: nat)
    requires Lookup(c.sets, c.sameLetter, s) == Some(cheer) && bits < cheer.value && |Digits(cheer.value)| <= |s|
    requires EndsWithin(c, Rewritten(s, cheer.value, bits), bits, m) && m < n
    ensures EndsWithin(c, s, bits, n)
  {
    hide Lookup, Digits, Rewritten;
    EndsLater(c, Rewritten(s, cheer.value, bits), bits, m, n - 1);
  }

  /** With bits left, the rewriting ends because the word is worth less each time. */
  lemma {:induction false} PositiveTagEnds(c: Catalog, s: Text, bits: nat)
    ensures EndsWithin(c, s, bits, Value(s))
    decreases Value(s)
  {
    var found := Lookup(c.sets, c.sameLetter, s);
    if bits != 0 && found.Some? && found.value.value > bits {
      var cheer := found.value;
      LookupIs(c.sets, c.sameLetter, s);
      LoweredIsLess(s, cheer, bits);
      PositiveTagEnds(c, Rewritten(s, cheer.value, bits), bits);
      EndsAfterRewriting(c, s, cheer, bits, Value(Rewritten(s, cheer.value, bits)), Value(s));
    } else {
      hide Lookup, Value;
    }
  }

  /** With a negative tag, it ends because there is less room each time, if no tier is free. */
  lemma {:induction false} NegativeTagEnds(c: Catalog, s: Text, bits: int)
    requires TiersCost(c.sets) && bits < 0
    ensures EndsWithin(c, s, bits, Room(c.sets, s))
    decreases Room(c.sets, s)
  {
    hide Lookup, Room, TiersCost;
    var found := Lookup(c.sets, c.sameLetter, s);
    if found.Some? {
      var cheer := found.value;
      RaisedHasLessRoom(c, s, cheer, bits);
      NegativeTagEnds(c, Rewritten(s, cheer.value, bits), bits);
      EndsAfterRewriting(c, s, cheer, bits, Room(c.sets, Rewritten(s, cheer.value, bits)), Room(c.sets, s));
    }
  }

  ghost predicate Reflexive(sameLetter: (CodeUnit, CodeUnit) -> bool) {
    forall x :: sameLetter(x, x)
  }

  /** A prefix with so many nines behind it that whatever captures them captures too much, and a five. */
  function TooLarge(c: Catalog, prefix: Text): Text {
    prefix + seq(LongestPrefix(c.sets) + 10, _ => ZERO + 9) + [ZERO + 5]
  }

  /** A set with a free tier recognises that word ... */
  lemma FreeTierRecognises(c: Catalog, set_: CheerSet, tier: Tier)
    requires Reflexive(c.sameLetter) && tier in set_.tiers && tier.minBits <= 0
    ensures Recognised(set_, c.sameLetter, TooLarge(c, set_.prefix))
  {
    hide ToInt, LongestPrefix;
  }

  /** ... and whichever set is chosen for it captures too much. */
  lemma CapturesTooMuch(c: Catalog, prefix: Text, cheer: Cheer)
    requires Lookup(c.sets, c.sameLetter, TooLarge(c, prefix)) == Some(cheer)
    ensures cheer.value == 0
  {
    var s := TooLarge(c, prefix);
    LookupIs(c.sets, c.sameLetter, s);
    hide *;
    var i: nat :| IsFirstChoice(c.sets, c.sameLetter, s, cheer, i);
    ChosenCaptures(c, prefix, cheer, i);
    CapturedValue(s, cheer);
    TooManyDigits(cheer.captured);
  }

  lemma ChosenCaptures(c: Catalog, prefix: Text, cheer: Cheer, i: nat)
    requires IsFirstChoice(c.sets, c.sameLetter, TooLarge(c, prefix), cheer, i)
    ensures |cheer.captured| > 10
  {
    assert c.sets[i] in c.sets;
    hide LongestPrefix;
  }

  /** Its last digit is taken away and put back. */
  lemma RewrittenToItself(c: Catalog, prefix: Text)
    ensures var s := TooLarge(c, prefix); |Digits(0)| <= |s| && Rewritten(s, 0, -5) == s
  {
    var s := TooLarge(c, prefix);
    assert Digits(0) == [ZERO] && Digits(5) == [ZERO + 5];
    assert s[..|s| - 1] + [ZERO + 5] == s;
  }

  /** A word that is rewritten to itself is rewritten forever. */
  lemma {:induction false} NeverEnds(c: Catalog, s: Text, cheer: Cheer, bits: int, n: nat)
    requires Lookup(c.sets, c.sameLetter, s) == Some(cheer)
    requires bits < 0 && cheer.value - bits <= INT_MAX && |Digits(cheer.value)| <= |s| && Rewritten(s, cheer.value, bits) == s
    ensures !EndsWithin(c, s, bits, n)
    decreases n
  {
    hide Lookup, Digits, Rewritten;
    if n > 0 {
      NeverEnds(c, s, cheer, bits, n - 1);
    }
  }

  /** With a free tier there is a word that a tag of -5 rewrites to itself. */
  lemma FreeTierLoops(c: Catalog) returns (s: Text, cheer: Cheer)
    requires Reflexive(c.sameLetter) && !TiersCost(c.sets)
    ensures Lookup(c.sets, c.sameLetter, s) == Some(cheer) && cheer.value == 0
    ensures |Digits(0)| <= |s| && Rewritten(s, 0, -5) == s
  {
    var set_, tier :| set_ in c.sets && tier in set_.tiers && tier.minBits <= 0;
    s := TooLarge(c, set_.prefix);
    FreeTierRecognises(c, set_, tier);
    LookupIs(c.sets, c.sameLetter, s);
    cheer := Lookup(c.sets, c.sameLetter, s).value;
    CapturesTooMuch(c, set_.prefix, cheer);
    RewrittenToItself(c, set_.prefix);
    hide *;
  }

  ghost predicate Changes(s: Text, value: nat, bits: int)
    requires bits <= value
  {
    |Digits(value)| <= |s| && Rewritten(s, value, bits) != s
  }

  /** Under negative tags every rewriting changes the word exactly if no tier is free. */
  lemma RewritingChangesIff(c: Catalog)
    requires Reflexive(c.sameLetter)
    ensures TiersCost(c.sets) <==>
            forall s: Text, bits: int :: bits < 0 && Lookup(c.sets, c.sameLetter, s).Some? ==>
              Changes(s, Lookup(c.sets, c.sameLetter, s).value.value, bits)
  {
    hide Lookup, Digits, Rewritten, TiersCost;
    if TiersCost(c.sets) {
      forall s: Text, bits: int | bits < 0 && Lookup(c.sets, c.sameLetter, s).Some?
        ensures Changes(s, Lookup(c.sets, c.sameLetter, s).value.value, bits)
      {
        RaisedHasLessRoom(c, s, Lookup(c.sets, c.sameLetter, s).value, bits);
      }
    } else {
      var s, cheer := FreeTierLoops(c);
      assert !Changes(s, cheer.value, -5);
    }
  }

  /** The rewriting of every word under every tag ends exactly if no tier is free. */
  lemma EndsIff(c: Catalog)
    requires Reflexive(c.sameLetter)
    ensures (forall s: Text, bits: int :: Ends(c, s, bits)) <==> TiersCost(c.sets)
  {
    hide EndsWithin, Lookup, Digits, Rewritten, TiersCost;
    if TiersCost(c.sets) {
      forall s: Text, bits: int ensures Ends(c, s, bits) {
        if bits < 0 {
          NegativeTagEnds(c, s, bits);
        } else {
          PositiveTagEnds(c, s, bits);
        }
      }
    } else {
      var s, cheer := FreeTierLoops(c);
      forall n: nat ensures !EndsWithin(c, s, -5, n) {
        NeverEnds(c, s, cheer, -5, n);
      }
      assert !Ends(c, s, -5);
    }
  }

  /** Such a word, in a catalog with one set: it is rewritten to itself. */
  lemma FreeTierNeverEnds()
    ensures var sets := [CheerSet([0x61], [Tier(0, true, true, true)])];
            var same := (x: CodeUnit, y: CodeUnit) => x == y;
            var s := [0x61] + Digits(99_999_999_995);
            && Lookup(sets, same, s).Some? && Lookup(sets, same, s).value.value == 0
            && Rewritten(s, 0, -5) == s
  {
    var tier := Tier(0, true, true, true);
    var set_ := CheerSet([0x61], [tier]);
    var same := (x: CodeUnit, y: CodeUnit) => x == y;
    var n := 99_999_999_995;
    var s: Text := [0x61] + Digits(n);
    assert Digits(n) == Digits(n / 10) + [ZERO + 5];
    DigitsAreDigits(n);
    ValueOfDigits(n);
    hide Value;
    assert s[1..] == Digits(n) && s[0] == 0x61;
    assert Matches(same, set_.prefix, s);
    assert FirstTier([tier], 0) == Some(tier);
    assert s[..|s| - 1] + [ZERO + 5] == s;
    assert Digits(0) == [ZERO] && Digits(5) == [ZERO + 5];
  }

  /** Every amount up to `n` is recognised behind this prefix. */
  ghost predicate Recognises(c: Catalog, prefix: Text, n: nat) {
    forall v :: 0 < v <= n ==>
      var cheer := Lookup(c.sets, c.sameLetter, prefix + Digits(v));
      cheer.Some? && cheer.value.captured == Digits(v) && cheer.value.value == v
  }

  /**
   The amount a word is lowered to has a closed form: repeatedly taking away what is left until no
   more than that remains.
   */
  lemma {:induction false} SettledAmount(c: Catalog, prefix: Text, v: nat, bits: nat)
    requires Recognises(c, prefix, v) && 0 < v && 0 < bits
    ensures var r := Settle(c, prefix + Digits(v), bits);
            r.Some? && r.value.value == (v - 1) % bits + 1 && r.value.captured == Digits((v - 1) % bits + 1)
    decreases v
  {
    hide Lookup, Settle, Value, Digits, CheerOf;
    var s := prefix + Digits(v);
    assert Lookup(c.sets, c.sameLetter, prefix + Digits(v)).Some?;
    SettleStep(c, s, bits);
    if v <= bits {
      SmallMod(v - 1, bits);
    } else {
      assert s[..|s| - |Digits(v)|] == prefix;
      SettledAmount(c, prefix, v - bits, bits);
      ModMultiple(v - 1, -1, bits);
    }
  }

  // ---------------------------------------------------------------------------------------------
  // A message
  // ---------------------------------------------------------------------------------------------

  /** The cheers of a message's words, in order. */
  function Cheers(c: Catalog, words: seq<Text>, bits: int): seq<Cheer> {
    if words == [] then []
    else
      var r := Settle(c, words[0], bits);
      SettleIs(c, words[0], bits);
      if r.None? then Cheers(c, words[1..], bits)
      else [r.value] + Cheers(c, words[1..], bits - r.value.value)
  }

  function Sum(cheers: seq<Cheer>): nat {
    if cheers == [] then 0 else cheers[0].value + Sum(cheers[1..])
  }

  /** Taking the first word of a message apart from the others. */
  lemma CheersCons(c: Catalog, words: seq<Text>, bits: int)
    requires words != []
    ensures var r := Settle(c, words[0], bits);
            if r.None? then Cheers(c, words, bits) == Cheers(c, words[1..], bits)
            else 0 <= r.value.value <= bits
                 && Cheers(c, words, bits) == [r.value] + Cheers(c, words[1..], bits - r.value.value)
  {
    SettleIs(c, words[0], bits);
    hide Settle, ToInt;
  }

  lemma SumCons(cheer: Cheer, others: seq<Cheer>)
    ensures Sum([cheer] + others) == cheer.value + Sum(others)
  {
    assert ([cheer] + others)[1..] == others;
  }

  lemma NoCheers(c: Catalog, bits: int)
    ensures Cheers(c, [], bits) == [] && Sum([]) == 0
  {
  }

  lemma CheersSum(c: Catalog, words: seq<Text>, bits: int)
    requires words != []
    ensures var r := Settle(c, words[0], bits);
            var taken := if r.Some? then r.value.value else 0;
            && 0 <= taken && (taken <= bits || r.None?)
            && Sum(Cheers(c, words, bits)) == taken + Sum(Cheers(c, words[1..], bits - taken))
  {
    CheersCons(c, words, bits);
    hide *;
    var r := Settle(c, words[0], bits);
    if r.Some? {
      SumCons(r.value, Cheers(c, words[1..], bits - r.value.value));
    }
  }

  /** Over any words, never more is given out than the tag says. */
  lemma {:induction false} NeverOverspent(c: Catalog, words: seq<Text>, bits: int)
    ensures Sum(Cheers(c, words, bits)) <= if 0 < bits then bits else 0
    decreases |words|
  {
    if words == [] {
      NoCheers(c, bits);
    } else {
      CheersSum(c, words, bits);
      hide *;
      var r := Settle(c, words[0], bits);
      NeverOverspent(c, words[1..], bits - if r.Some? then r.value.value else 0);
    }
  }

  lemma PaidIsPositive(c: Catalog, s: Text, bits: int)
    requires TiersCost(c.sets)
    ensures var r := Settle(c, s, bits); r.Some? ==> 0 < r.value.value == Value(r.value.captured)
  {
    SettleIs(c, s, bits);
    hide Settle, Value;
  }

  /** When every tier costs at least one bit, each cheer has a positive value and shows exactly that. */
  lemma {:induction false} ShownIsTaken(c: Catalog, words: seq<Text>, bits: int, k: nat)
    requires TiersCost(c.sets)
    requires k < |Cheers(c, words, bits)|
    ensures var cheer := Cheers(c, words, bits)[k];
            0 < cheer.value == Value(cheer.captured)
    decreases |words|
  {
    CheersCons(c, words, bits);
    PaidIsPositive(c, words[0], bits);
    hide *;
    var r := Settle(c, words[0], bits);
    if r.None? {
      ShownIsTaken(c, words[1..], bits, k);
    } else if k > 0 {
      ShownIsTaken(c, words[1..], bits - r.value.value, k - 1);
    }
  }

  /**
   With sets whose prefixes overlap, lowering can make the captured value grow: here a word worth 60
   in one set is worth 140 in the other one after 20 bits are taken off. It still settles, because
   the word as a whole is worth less each time.
   */
  lemma LoweringCanRaiseTheValue()
    ensures var tier := Tier(50, true, true, true);
            var small := Tier(1, true, true, true);
            var sets := [CheerSet([0x61, 0x31], [tier]), CheerSet([0x61], [small])];
            var same := (x: CodeUnit, y: CodeUnit) => x == y;
            var s := [0x61, 0x31, 0x36, 0x30];
            && Lookup(sets, same, s) == Some(Cheer([0x36, 0x30], 60, tier))
            && Rewritten(s, 60, 20) == [0x61, 0x31, 0x34, 0x30]
            && Lookup(sets, same, Rewritten(s, 60, 20)) == Some(Cheer([0x31, 0x34, 0x30], 140, small))
  {
    var tier, small := Tier(50, true, true, true), Tier(1, true, true, true);
    var same := (x: CodeUnit, y: CodeUnit) => x == y;
    var s: Text, low: Text := [0x61, 0x31, 0x36, 0x30], [0x61, 0x31, 0x34, 0x30];
    SomeNumbers();
    hide Value, Digits;
    assert s[2..] == [0x36, 0x30] && low[2..] == [0x34, 0x30] && low[1..] == [0x31, 0x34, 0x30];
    var first, second := CheerSet([0x61, 0x31], [tier]), CheerSet([0x61], [small]);
    assert [first, second][1..] == [second];
    assert Matches(same, first.prefix, s) && Matches(same, first.prefix, low) && Matches(same, second.prefix, low);
    assert FirstTier([tier], 60) == Some(tier) && FirstTier([small], 140) == Some(small);
    assert FirstTier([tier], 40) == FirstTier([tier][1..], 40) == None;
  }

  lemma SomeNumbers()
    ensures Digits(60) == [0x36, 0x30] && Digits(40) == [0x34, 0x30]
    ensures Value([0x36, 0x30]) == 60 && Value([0x34, 0x30]) == 40 && Value([0x31, 0x34, 0x30]) == 140
  {
  }

  // ---------------------------------------------------------------------------------------------
  // The builder
  // ---------------------------------------------------------------------------------------------

  datatype Element = StaticEmote(tier: Tier) | AnimatedEmote(tier: Tier) | BitsAmount(text: Text)

  /** What a cheer adds to the message: its emotes, and its amount if the tier has a color, in this order. */
  function Elements(tier: Tier, amount: Text): (r: seq<Element>)
    ensures StaticEmote(tier) in r <==> tier.hasStatic
    ensures AnimatedEmote(tier) in r <==> tier.hasAnimated
    ensures BitsAmount(amount) in r <==> tier.hasColor
    ensures forall e :: e in r ==> e in [StaticEmote(tier), AnimatedEmote(tier), BitsAmount(amount)]
    ensures forall i, j :: 0 <= i < j < |r| ==> r[i] != r[j] && !r[i].BitsAmount? && !r[j].StaticEmote?
  {
    (if tier.hasStatic then [StaticEmote(tier)] else [])
    + (if tier.hasAnimated then [AnimatedEmote(tier)] else [])
    + (if tier.hasColor then [BitsAmount(amount)] else [])
  }

  function AllElements(cheers: seq<Cheer>): seq<Element> {
    if cheers == [] then [] else Elements(cheers[0].tier, cheers[0].captured) + AllElements(cheers[1..])
  }

  /** `QString::number` of an int. */
  function Printed(n: int): Text {
    if n < 0 then [0x2D] + Digits(-n) else Digits(n)
  }

  lemma PrintedIs(n: int)
    ensures 0 <= n ==> AllDigits(Printed(n)) && Value(Printed(n)) == n && (0 < n ==> Printed(n)[0] != ZERO)
    ensures n < 0 ==> Printed(n) == [0x2D] + Printed(-n)
  {
    if 0 <= n {
      DigitsAreDigits(n);
      ValueOfDigits(n);
    }
  }

  class MessageBuilder {
    var bitsLeft: int
    var bitsStacked: bool
    var elements: seq<Element>

    constructor (bits: int)
      ensures bitsLeft == bits && !bitsStacked && elements == []
    {
      bitsLeft, bitsStacked, elements := bits, false, [];
    }

    method Emplace(tier: Tier, amount: Text)
      modifies this`elements
      ensures elements == old(elements) + Elements(tier, amount)
    {
      if tier.hasStatic {
        elements := elements + [StaticEmote(tier)];
      }
      if tier.hasAnimated {
        elements := elements + [AnimatedEmote(tier)];
      }
      if tier.hasColor {
        elements := elements + [BitsAmount(amount)];
      }
    }

    /** Stacking: the first cheer stands for all bits and later ones are swallowed. */
    method StackCheer(tier: Tier)
      modifies this`bitsStacked, this`elements
      ensures bitsStacked
      ensures elements == old(elements) + if old(bitsStacked) then [] else Elements(tier, Printed(bitsLeft))
    {
      if bitsStacked {
        return;
      }
      Emplace(tier, Printed(bitsLeft));
      bitsStacked := true;
    }

    /**
     One word, when bits are not stacked. A negative tag never pays for anything; with it the
     rewritten amounts grow until the word is not recognised any more or they leave the range of an int.
     */
    method TakeCheer(c: Catalog, s: Text, ghost steps: nat) returns (success: bool)
      requires EndsWithin(c, s, bitsLeft, steps)
      modifies this`bitsLeft, this`elements
      ensures var r := Settle(c, s, old(bitsLeft));
              && success == r.Some?
              && bitsLeft == old(bitsLeft) - (if r.Some? then r.value.value else 0)
              && elements == old(elements) + if r.Some? then Elements(r.value.tier, r.value.captured) else []
      decreases steps
    {
      hide Lookup, Settle, Elements, Value, Digits, CheerOf;
      if bitsLeft <= 0 {
        SettleNothing(c, bitsLeft);
      } else {
        SettleStep(c, s, bitsLeft);
      }
      if bitsLeft == 0 {
        return false;
      }
      var cheerOpt := Lookup(c.sets, c.sameLetter, s);
      if cheerOpt.None? {
        return false;
      }
      var cheer := cheerOpt.value;
      if bitsLeft >= cheer.value {
        bitsLeft := bitsLeft - cheer.value;
      } else if cheer.value - bitsLeft > INT_MAX {
        return false;
      } else {
        var newString := s[..|s| - |Digits(cheer.value)|];
        newString := newString + Digits(cheer.value - bitsLeft);
        success := TakeCheer(c, newString, steps - 1);
        return;
      }
      Emplace(cheer.tier, cheer.captured);
      return true;
    }

    method TryAppendCheermote(c: Catalog, stackBits: bool, s: Text) returns (success: bool)
      requires stackBits || Ends(c, s, bitsLeft)
      modifies this
      ensures !stackBits ==>
                && bitsStacked == old(bitsStacked)
                && var r := Settle(c, s, old(bitsLeft));
                   && success == r.Some?
                   && bitsLeft == old(bitsLeft) - (if r.Some? then r.value.value else 0)
                   && elements == old(elements) + if r.Some? then Elements(r.value.tier, r.value.captured) else []
      ensures old(bitsLeft) == 0 ==> !success && bitsLeft == 0 && elements == old(elements)
      ensures stackBits ==>
                && bitsLeft == old(bitsLeft)
                && success == (bitsLeft != 0 && Lookup(c.sets, c.sameLetter, s).Some?)
                && bitsStacked == (old(bitsStacked) || success)
                && elements == old(elements)
                   + if success && !old(bitsStacked)
                     then Elements(Lookup(c.sets, c.sameLetter, s).value.tier, Printed(bitsLeft)) else []
    {
      hide Lookup, Settle, Elements, Value, Digits, EndsWithin;
      if stackBits && bitsLeft != 0 {
        var cheerOpt := Lookup(c.sets, c.sameLetter, s);
        if cheerOpt.Some? {
          StackCheer(cheerOpt.value.tier);
        }
        return cheerOpt.Some?;
      } else if stackBits {
        return false;
      }
      if bitsLeft == 0 {
        SettleNothing(c, bitsLeft);
      }
      ghost var steps: nat :| EndsWithin(c, s, bitsLeft, steps);
      success := TakeCheer(c, s, steps);
    }

    /**
     All words of a message, without stacking: the amounts given out and the bits left always add up
     to the tag, and the elements are those of the message's cheers.
     */
    method AddWords(c: Catalog, words: seq<Text>)
      requires 0 <= bitsLeft || forall s :: s in words ==> Ends(c, s, bitsLeft)
      modifies this
      ensures 0 <= old(bitsLeft) ==> 0 <= bitsLeft
      ensures Sum(Cheers(c, words, old(bitsLeft))) + bitsLeft == old(bitsLeft)
      ensures elements == old(elements) + AllElements(Cheers(c, words, old(bitsLeft)))
    {
      ghost var tag, start, all := bitsLeft, elements, Cheers(c, words, bitsLeft);
      hide Settle, Elements, Lookup, SameInTheEnd, Cheers, Sum, AllElements, EndsWithin;
      assert words[0..] == words && words[|words|..] == [];
      SameFromTheStart(all, tag, start);
      for k := 0 to |words|
        invariant if 0 <= tag then 0 <= bitsLeft else bitsLeft == tag
        invariant SameInTheEnd(all, tag, start, Cheers(c, words[k..], bitsLeft), bitsLeft, elements)
      {
        ghost var before, left := elements, bitsLeft;
        if 0 <= bitsLeft {
          PositiveTagEnds(c, words[k], bitsLeft);
        }
        var _ := TryAppendCheermote(c, false, words[k]);
        assert words[k..][1..] == words[k + 1..] && before + [] == before;
        CheersCons(c, words[k..], left);
        ghost var r := Settle(c, words[k], left);
        if r.Some? {
          CheerStep(all, tag, start, r.value, Cheers(c, words[k + 1..], bitsLeft), left, before);
        }
      }
      NoCheers(c, bitsLeft);
      SameAtTheEnd(all, tag, start, bitsLeft, elements);
    }
  }

  /** The elements after cheers have been added to those there were. */
  function Shown(elements: seq<Element>, cheers: seq<Cheer>): seq<Element> {
    elements + AllElements(cheers)
  }

  lemma ShownCons(elements: seq<Element>, cheer: Cheer, others: seq<Cheer>)
    ensures Shown(elements, [cheer] + others) == Shown(elements + Elements(cheer.tier, cheer.captured), others)
  {
    assert ([cheer] + others)[1..] == others;
    hide Elements;
  }

  /** Going on with the cheers `rest` from `bits` and `elements` comes to the same as with all from the start. */
  ghost predicate SameInTheEnd(
    all: seq<Cheer>, tag: int, start: seq<Element>, rest: seq<Cheer>, bits: int, elements: seq<Element>)
  {
    Sum(all) + bits == tag + Sum(rest) && Shown(start, all) == Shown(elements, rest)
  }

  lemma SameFromTheStart(all: seq<Cheer>, tag: int, start: seq<Element>)
    ensures SameInTheEnd(all, tag, start, all, tag, start)
  {
  }

  lemma SameAtTheEnd(all: seq<Cheer>, tag: int, start: seq<Element>, bits: int, elements: seq<Element>)
    requires SameInTheEnd(all, tag, start, [], bits, elements)
    ensures Sum(all) + bits == tag && elements == start + AllElements(all)
  {
  }

  lemma CheerStep(
    all: seq<Cheer>, tag: int, start: seq<Element>, cheer: Cheer, others: seq<Cheer>, bits: int, elements: seq<Element>)
    requires SameInTheEnd(all, tag, start, [cheer] + others, bits, elements)
    ensures SameInTheEnd(all, tag, start, others, bits - cheer.value, elements + Elements(cheer.tier, cheer.captured))
  {
    SumCons(cheer, others);
    ShownCons(elements, cheer, others);
    hide Elements, Sum, Shown;
  }
}
