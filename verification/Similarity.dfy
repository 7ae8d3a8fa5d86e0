/**
 Message similarity: the length of a longest common substring, found with a table of common suffix
 lengths, relative to the longer of the two texts.
 */
module Similarity {
  import opened Prelude

  /** Length of the longest common suffix of `a[..i]` and `b[..j]`. */
  function CommonEnd(a: Text, b: Text, i: nat, j: nat): (n: nat)
    requires i <= |a| && j <= |b|
    ensures n <= i && n <= j
  {
    if i == 0 || j == 0 || a[i - 1] != b[j - 1] then 0 else CommonEnd(a, b, i - 1, j - 1) + 1
  }

  /** The largest table entry in row `i`, columns up to `j`. */
  function RowBest(a: Text, b: Text, i: nat, j: nat): nat
    requires i <= |a| && j <= |b|
  {
    if j == 0 then 0 else Max(RowBest(a, b, i, j - 1), CommonEnd(a, b, i, j))
  }

  /** The largest table entry in the first `i` rows. */
  function TableBest(a: Text, b: Text, i: nat): nat
    requires i <= |a|
  {
    if i == 0 then 0 else Max(TableBest(a, b, i - 1), RowBest(a, b, i, |b|))
  }

  function LongestLength(a: Text, b: Text): nat {
    TableBest(a, b, |a|)
  }

  ghost predicate CommonSubstring(a: Text, b: Text, i: nat, j: nat, n: nat) {
    i + n <= |a| && j + n <= |b| && a[i..i + n] == b[j..j + n]
  }

  /** Some common substring has length `n`, and none is longer. */
  ghost predicate IsLongestCommon(a: Text, b: Text, n: nat) {
    && (exists i: nat, j: nat :: CommonSubstring(a, b, i, j, n))
    && (forall i: nat, j: nat, m: nat :: CommonSubstring(a, b, i, j, m) ==> m <= n)
  }

  lemma SplitLast(a: Text, from: nat, to: nat)
    requires from < to <= |a|
    ensures a[from..to] == a[from..to - 1] + [a[to - 1]]
  {
  }

  lemma {:induction false} CommonEndIsCommon(a: Text, b: Text, i: nat, j: nat)
    requires i <= |a| && j <= |b|
    ensures var n := CommonEnd(a, b, i, j); CommonSubstring(a, b, i - n, j - n, n)
  {
    var n := CommonEnd(a, b, i, j);
    if n > 0 {
      CommonEndIsCommon(a, b, i - 1, j - 1);
      hide CommonEnd;
      SplitLast(a, i - n, i);
      SplitLast(b, j - n, j);
    }
  }

  lemma {:induction false} CommonIsCounted(a: Text, b: Text, i: nat, j: nat, n: nat)
    requires CommonSubstring(a, b, i, j, n)
    ensures n <= CommonEnd(a, b, i + n, j + n)
  {
    if n > 0 {
      assert a[i..i + n][n - 1] == a[i + n - 1] && b[j..j + n][n - 1] == b[j + n - 1];
      assert a[i..i + n - 1] == a[i..i + n][..n - 1] && b[j..j + n - 1] == b[j..j + n][..n - 1];
      CommonIsCounted(a, b, i, j, n - 1);
    }
  }

  lemma {:induction false} RowBestIs(a: Text, b: Text, i: nat, j: nat)
    requires i <= |a| && j <= |b|
    ensures forall k :: 0 < k <= j ==> CommonEnd(a, b, i, k) <= RowBest(a, b, i, j)
    ensures exists k :: 0 <= k <= j && (RowBest(a, b, i, j) == CommonEnd(a, b, i, k))
  {
    if j == 0 {
      assert CommonEnd(a, b, i, 0) == 0;
    } else {
      RowBestIs(a, b, i, j - 1);
    }
  }

  lemma {:induction false} TableBestIs(a: Text, b: Text, i: nat)
    requires i <= |a|
    ensures forall h, k :: 0 < h <= i && 0 < k <= |b| ==> CommonEnd(a, b, h, k) <= TableBest(a, b, i)
    ensures exists h, k :: 0 <= h <= i && 0 <= k <= |b| && TableBest(a, b, i) == CommonEnd(a, b, h, k)
  {
    if i == 0 {
      assert CommonEnd(a, b, 0, 0) == 0;
    } else {
      TableBestIs(a, b, i - 1);
      RowBestIs(a, b, i, |b|);
    }
  }

  /** The table's maximum is the length of a longest common substring. */
  lemma LongestLengthIsLongest(a: Text, b: Text)
    ensures IsLongestCommon(a, b, LongestLength(a, b))
  {
    TableBestIs(a, b, |a|);
    var h, k :| 0 <= h <= |a| && 0 <= k <= |b| && LongestLength(a, b) == CommonEnd(a, b, h, k);
    CommonEndIsCommon(a, b, h, k);
    forall i: nat, j: nat, m: nat | CommonSubstring(a, b, i, j, m)
      ensures m <= LongestLength(a, b)
    {
      CommonIsCounted(a, b, i, j, m);
    }
  }

  /** The exact similarity (the code rounds it to a float). */
  function SimilarityOf(a: Text, b: Text): real {
    var z := LongestLength(a, b);
    if z == 0 then 0.0 else z as real / Max(1, Max(|a|, |b|)) as real
  }

  lemma LongestUnique(a: Text, b: Text, m: nat, n: nat)
    requires IsLongestCommon(a, b, m) && IsLongestCommon(a, b, n)
    ensures m == n
  {
  }

  lemma RatioTimes(q: real, z: int, n: int)
    requires 0 < n && q == if z == 0 then 0.0 else z as real / n as real
    ensures q * n as real == z as real
  {
  }

  /** The length of the longest common substrings as a share of the longer text's length. */
  ghost predicate IsShare(a: Text, b: Text, q: real) {
    forall n: nat :: IsLongestCommon(a, b, n) ==> q * Max(1, Max(|a|, |b|)) as real == n as real
  }

  lemma SimilarityTimes(a: Text, b: Text)
    ensures SimilarityOf(a, b) * Max(1, Max(|a|, |b|)) as real == LongestLength(a, b) as real
  {
    RatioTimes(SimilarityOf(a, b), LongestLength(a, b), Max(1, Max(|a|, |b|)));
    hide LongestLength;
  }

  lemma SimilarityIsShare(a: Text, b: Text)
    ensures IsShare(a, b, SimilarityOf(a, b))
  {
    SimilarityTimes(a, b);
    LongestLengthIsLongest(a, b);
    hide SimilarityOf, LongestLength, CommonSubstring, IsLongestCommon;
    forall n: nat | IsLongestCommon(a, b, n) ensures n == LongestLength(a, b) {
      LongestUnique(a, b, n, LongestLength(a, b));
    }
  }

  lemma LongestSymmetric(a: Text, b: Text)
    ensures LongestLength(a, b) == LongestLength(b, a)
  {
    LongestLengthIsLongest(a, b);
    LongestLengthIsLongest(b, a);
    forall i: nat, j: nat, m: nat ensures CommonSubstring(a, b, i, j, m) <==> CommonSubstring(b, a, j, i, m) {}
  }

  lemma LongestBounds(a: Text, b: Text)
    ensures LongestLength(a, b) <= |a| && LongestLength(a, b) <= |b|
    ensures LongestLength(a, b) == Max(|a|, |b|) <==> a == b
  {
    LongestLengthIsLongest(a, b);
    var z := LongestLength(a, b);
    var i: nat, j: nat :| CommonSubstring(a, b, i, j, z);
    if z == Max(|a|, |b|) {
      assert a[0..|a|] == a && b[0..|b|] == b;
    }
    if a == b {
      assert CommonSubstring(a, b, 0, 0, |a|);
    }
  }

  lemma RatioBounds(z: int, n: int)
    requires 0 <= z <= n && 0 < n
    ensures 0.0 <= z as real / n as real <= 1.0
    ensures z as real / n as real == 1.0 <==> z == n
    ensures z as real / n as real == 0.0 <==> z == 0
  {
  }

  /** Symmetric, between 0 and 1, and 1 exactly for equal non-empty texts; 0 exactly when nothing is shared. */
  lemma SimilarityLaws(a: Text, b: Text)
    ensures SimilarityOf(a, b) == SimilarityOf(b, a)
    ensures 0.0 <= SimilarityOf(a, b) <= 1.0
    ensures SimilarityOf(a, b) == 1.0 <==> a == b && a != []
    ensures SimilarityOf(a, b) == 0.0 <==> forall x :: x in a ==> x !in b
    ensures IsShare(a, b, SimilarityOf(a, b))
  {
    LongestSymmetric(a, b);
    LongestBounds(a, b);
    var z := LongestLength(a, b);
    RatioBounds(z, Max(1, Max(|a|, |b|)));
    SimilarityIsShare(a, b);
    hide IsShare;
    LongestLengthIsLongest(a, b);
    if x :| x in a && x in b {
      var i :| 0 <= i < |a| && a[i] == x;
      var j :| 0 <= j < |b| && b[j] == x;
      assert CommonSubstring(a, b, i, j, 1);
    }
    if z != 0 {
      var i: nat, j: nat :| CommonSubstring(a, b, i, j, z);
      assert a[i..i + z][0] == a[i] && b[j..j + z][0] == b[j];
      assert a[i] in a && a[i] in b;
    }
  }

  /** Fills the table in place and keeps the running maximum. */
  method RelativeSimilarity(a: Text, b: Text) returns (similarity: real)
    ensures similarity == SimilarityOf(a, b)
    ensures IsShare(a, b, similarity)
  {
    SimilarityIsShare(a, b);
    hide IsShare;
    var tree := new int[|a|, |b|];
    var z := 0;
    for i := 0 to |a|
      invariant forall h, k :: 0 <= h < i && 0 <= k < |b| ==> tree[h, k] == CommonEnd(a, b, h + 1, k + 1)
      invariant z == TableBest(a, b, i)
    {
      for j := 0 to |b|
        invariant forall h, k :: 0 <= h < i && 0 <= k < |b| ==> tree[h, k] == CommonEnd(a, b, h + 1, k + 1)
        invariant forall k :: 0 <= k < j ==> tree[i, k] == CommonEnd(a, b, i + 1, k + 1)
        invariant z == Max(TableBest(a, b, i), RowBest(a, b, i + 1, j))
      {
        if a[i] == b[j] {
          if i == 0 || j == 0 {
            tree[i, j] := 1;
          } else {
            tree[i, j] := tree[i - 1, j - 1] + 1;
          }
          z := Max(tree[i, j], z);
        } else {
          tree[i, j] := 0;
        }
        assert tree[i, j] == CommonEnd(a, b, i + 1, j + 1);
      }
    }
    if z == 0 {
      return 0.0;
    }
    var div := Max(1, Max(|a|, |b|));
    return z as real / div as real;
  }

  // ---------------------------------------------------------------------------------------------
  // Against recent messages
  // ---------------------------------------------------------------------------------------------

  datatype Message = Message(loginName: string, seconds: int, text: Text)

  datatype Settings = Settings(maxMessagesToCheck: nat, maxDelay: int, bySameUser: bool)

  /**
   Message `i` (oldest first) is compared: it is among the newest `maxMessagesToCheck`, nothing from
   it on is too old, and it passes the user filter.
   */
  ghost predicate Compared(settings: Settings, msg: Message, messages: seq<Message>, i: nat) {
    && i < |messages| && |messages| - settings.maxMessagesToCheck <= i
    && (forall j :: i <= j < |messages| ==> msg.seconds - messages[j].seconds < settings.maxDelay)
    && (settings.bySameUser ==> messages[i].loginName == msg.loginName)
  }

  /** The largest similarity to a compared message, or 0. */
  method InMessages(settings: Settings, msg: Message, messages: seq<Message>) returns (percent: real)
    ensures forall i: nat :: Compared(settings, msg, messages, i) ==> SimilarityOf(msg.text, messages[i].text) <= percent
    ensures percent == 0.0
         || exists i: nat :: Compared(settings, msg, messages, i) && percent == SimilarityOf(msg.text, messages[i].text)
  {
    percent := 0.0;
    var i := |messages|;
    while 0 < i && |messages| - i < settings.maxMessagesToCheck
      invariant 0 <= i <= |messages|
      invariant |messages| - i <= settings.maxMessagesToCheck
      invariant forall j :: i <= j < |messages| ==> msg.seconds - messages[j].seconds < settings.maxDelay
      invariant forall j: nat :: i <= j && Compared(settings, msg, messages, j) ==>
                  SimilarityOf(msg.text, messages[j].text) <= percent
      invariant percent == 0.0
             || exists j: nat :: Compared(settings, msg, messages, j) && percent == SimilarityOf(msg.text, messages[j].text)
    {
      i := i - 1;
      if msg.seconds - messages[i].seconds >= settings.maxDelay {
        return;
      }
      if settings.bySameUser && msg.loginName != messages[i].loginName {
        continue;
      }
      var similarity := RelativeSimilarity(msg.text, messages[i].text);
      assert Compared(settings, msg, messages, i);
      percent := if percent < similarity then similarity else percent;
    }
  }
}
