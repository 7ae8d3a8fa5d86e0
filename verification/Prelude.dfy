/** Small shared vocabulary: optional values and the sequence edits that several engines perform. */
module Prelude {

  datatype Option<+T> = None | Some(value: T)

  /** One UTF-16 code unit. */
  type CodeUnit = n: int | 0 <= n < 0x1_0000

  type Text = seq<CodeUnit>

  /** Milliseconds between two ticks of the animation timer. */
  const GIF_FRAME_LENGTH := 20

  function Min(a: int, b: int): int {
    if a <= b then a else b
  }

  function Max(a: int, b: int): int {
    if a <= b then b else a
  }

  /** `s` with `x` placed before position `i`. */
  function InsertAt<T>(s: seq<T>, i: nat, x: T): seq<T>
    requires i <= |s|
  {
    s[..i] + [x] + s[i..]
  }

  /** `s` without the element at position `i`. */
  function RemoveAt<T>(s: seq<T>, i: nat): seq<T>
    requires i < |s|
  {
    s[..i] + s[i + 1..]
  }

  lemma InsertAtIndex<T>(s: seq<T>, i: nat, x: T)
    requires i <= |s|
    ensures |InsertAt(s, i, x)| == |s| + 1
    ensures forall j :: 0 <= j <= |s| ==>
              InsertAt(s, i, x)[j] == if j < i then s[j] else if j == i then x else s[j - 1]
  {
  }

  /** Cutting off a prefix that ends no later than the insertion point. */
  lemma InsertAtDrop<T>(s: seq<T>, i: nat, x: T, from: nat)
    requires from <= i <= |s|
    ensures InsertAt(s, i, x)[from..] == InsertAt(s[from..], i - from, x)
  {
  }

  ghost predicate Distinct<T>(s: seq<T>) {
    forall i, j :: 0 <= i < j < |s| ==> s[i] != s[j]
  }

  /** The first position from `i` on that holds `x`, or `|s|`. */
  function IndexFrom<T(==)>(s: seq<T>, x: T, i: nat): (r: nat)
    requires i <= |s|
    ensures i <= r <= |s|
    ensures r < |s| ==> s[r] == x
    ensures forall j :: i <= j < r ==> s[j] != x
    decreases |s| - i
  {
    if i == |s| || s[i] == x then i else IndexFrom(s, x, i + 1)
  }

  /** Position of the first occurrence of `x`, or `|s|`. */
  function IndexOf<T(==)>(s: seq<T>, x: T): (i: nat)
    ensures i <= |s|
    ensures i < |s| ==> s[i] == x
    ensures forall j :: 0 <= j < i ==> s[j] != x
  {
    IndexFrom(s, x, 0)
  }

  lemma {:induction false} DistinctMultiset<T>(s: seq<T>)
    ensures Distinct(s) <==> forall x :: multiset(s)[x] <= 1
  {
    if s != [] {
      var front, last := s[..|s| - 1], s[|s| - 1];
      assert s == front + [last];
      DistinctMultiset(front);
      if Distinct(s) {
        assert forall i, j :: 0 <= i < j < |front| ==> front[i] == s[i] && front[j] == s[j];
        assert last !in front;
      } else {
        var i, j :| 0 <= i < j < |s| && s[i] == s[j];
        if j == |s| - 1 {
          assert front[i] == last;
          assert multiset(s)[last] >= 2;
        } else {
          assert front[i] == front[j];
          var x :| multiset(front)[x] > 1;
          assert multiset(s)[x] > 1;
        }
      }
    }
  }

  /** Whatever is drawn from distinct elements is distinct. */
  lemma DistinctPart<T>(part: seq<T>, all: seq<T>)
    requires Distinct(all) && multiset(part) <= multiset(all)
    ensures Distinct(part)
  {
    DistinctMultiset(all);
    assert forall x :: multiset(part)[x] <= multiset(all)[x];
    DistinctMultiset(part);
  }

  lemma AtLeastOneTimes(k: int, m: int)
    requires 0 < m && 0 < k
    ensures m <= k * m
  {
  }

  lemma Factor(a: int, b: int, m: int)
    ensures (a - b) * m == a * m - b * m
  {
  }

  lemma Euclid(x: int, m: int)
    requires 0 < m
    ensures x == (x / m) * m + x % m && 0 <= x % m < m
  {
  }

  /** Quotient and remainder are determined by their defining equation. */
  lemma DivModUnique(x: int, q: int, r: int, m: int)
    requires 0 <= r < m && x == q * m + r
    ensures x / m == q && x % m == r
  {
    var d := x / m - q;
    Euclid(x, m);
    Factor(x / m, q, m);
    if d > 0 {
      AtLeastOneTimes(d, m);
    } else if d < 0 {
      AtLeastOneTimes(-d, m);
    }
  }

  /** Whole multiples do not change a remainder. */
  lemma ModMultiple(x: int, k: int, m: int)
    requires 0 < m
    ensures (x + k * m) % m == x % m
  {
    Euclid(x, m);
    Factor(x / m, -k, m);
    DivModUnique(x + k * m, x / m + k, x % m, m);
  }

  lemma ModAdd(x: int, y: int, z: int, m: int)
    requires 0 < m && x % m == y % m
    ensures (x + z) % m == (y + z) % m
  {
    var k := x / m - y / m;
    Factor(x / m, y / m, m);
    Euclid(x, m);
    Euclid(y, m);
    ModMultiple(y + z, k, m);
  }

  lemma SmallMod(x: int, m: int)
    requires 0 <= x < m
    ensures x % m == x
  {
  }

  /** Cutting at `p` and then again is cutting the original. */
  lemma CutTwice<T>(s: seq<T>, p: nat, h: nat)
    requires p <= h <= |s|
    ensures s[p..][..h - p] == s[p..h] && s[p..][h - p..] == s[h..]
  {
  }

  lemma CutInside<T>(s: seq<T>, p: nat, q: nat, h: nat)
    requires p <= h <= q <= |s|
    ensures s[p..q][..h - p] == s[p..h]
  {
  }

  /** The end of a concatenation, from within the second part or the first. */
  lemma EndOfConcat<T>(a: seq<T>, b: seq<T>, k: nat)
    requires k <= |a| + |b|
    ensures (a + b)[k..] == if |a| <= k then b[k - |a|..] else a[k..] + b
  {
  }

  lemma FrontOfConcat<T>(a: seq<T>, b: seq<T>)
    ensures (a + b)[..|a|] == a
  {
  }

  lemma CutAt<T>(s: seq<T>, n: nat)
    requires n <= |s|
    ensures s == s[..n] + s[n..]
  {
  }

  lemma Assoc<T>(a: seq<T>, b: seq<T>, c: seq<T>)
    ensures a + b + c == a + (b + c)
  {
  }

  lemma TimesMonotone(x: nat, p: nat, q: nat)
    requires p <= q
    ensures x * p <= x * q && p * x <= q * x
  {
  }

  lemma OneMoreTime(n: int, x: int)
    ensures n * x == x + (n - 1) * x
  {
  }
}
