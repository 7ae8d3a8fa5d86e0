/**
 The link parser: hand-written scanning loops over UTF-16 code units, and the grammar they
 recognise. A link is an optional http(s) protocol, a host and a rest; views into the source are
 modelled as positions.
 */
module LinkParser {
  import opened Prelude
  import opened Decimal

  const DOT: CodeUnit := 0x2E

  predicate IsDot(c: CodeUnit) { c == DOT }

  /** '/', '?' or '#': where a path, a query or a fragment starts. */
  predicate IsSeparator(c: CodeUnit) { c == '/' as int || c == '?' as int || c == '#' as int }

  /** Ignored in front of a link: '<', '*', '_', '~', '('. */
  predicate IsIgnoredPrefix(c: CodeUnit) {
    c == '<' as int || c == '*' as int || c == '_' as int || c == '~' as int || c == '(' as int
  }

  /** Ignored behind a link: '>', '?', '!', '.', ',', ':', '*', '~', ')'. */
  predicate IsIgnoredSuffix(c: CodeUnit) {
    || c == '>' as int || c == '?' as int || c == '!' as int || c == '.' as int || c == ',' as int
    || c == ':' as int || c == '*' as int || c == '~' as int || c == ')' as int
  }

  predicate IsDomainChar(c: CodeUnit) {
    || c >= 0x80 || IsAsciiDigit(c) || 'A' as int <= c <= 'Z' as int || 'a' as int <= c <= 'z' as int
    || c == '_' as int || c == '-' as int || IsDot(c)
  }

  predicate OneOf(c: CodeUnit, units: string) {
    0 <= c < 0x80 && c as char in units
  }

  lemma Letters(c: CodeUnit)
    ensures OneOf(c, "ABCDEFGHIJKLMNOPQRSTUVWXYZ") <==> 'A' as int <= c <= 'Z' as int
    ensures OneOf(c, "abcdefghijklmnopqrstuvwxyz") <==> 'a' as int <= c <= 'z' as int
  {
  }

  /** The sets of units, as the documentation of the parser lists them. */
  lemma UnitSets(c: CodeUnit)
    ensures IsIgnoredPrefix(c) <==> OneOf(c, "<*_~(")
    ensures IsIgnoredSuffix(c) <==> OneOf(c, ">?!.,:*~)")
    ensures IsSeparator(c) <==> OneOf(c, "/?#")
    ensures IsDomainChar(c) <==>
              c >= 0x80 || OneOf(c, "ABCDEFGHIJKLMNOPQRSTUVWXYZ") || OneOf(c, "abcdefghijklmnopqrstuvwxyz")
              || OneOf(c, "0123456789-_.")
  {
    Letters(c);
  }

  /** The top level domains, and which units count as decimal digits (a Unicode property). */
  datatype Tables = Tables(isTld: Text -> bool, isDigit: CodeUnit -> bool) {
    ghost predicate Valid() {
      !isTld([])
    }
  }

  // ---------------------------------------------------------------------------------------------
  // Labels
  // ---------------------------------------------------------------------------------------------

  /** The parts of `s` between its dots. */
  function Labels(s: Text): (r: seq<Text>)
    ensures |r| >= 1
  {
    if s == [] then [[]]
    else
      var r, c := Labels(s[..|s| - 1]), s[|s| - 1];
      if IsDot(c) then r + [[]] else r[..|r| - 1] + [r[|r| - 1] + [c]]
  }

  function LastLabel(s: Text): Text {
    Labels(s)[|Labels(s)| - 1]
  }

  /** When `s` has been read up to `i`: the labels already finished by a dot ... */
  function Finished(s: Text, i: nat): seq<Text>
    requires i <= |s|
  {
    Labels(s[..i])[..|Labels(s[..i])| - 1]
  }

  /** ... and the one being read. */
  function Current(s: Text, i: nat): Text
    requires i <= |s|
  {
    LastLabel(s[..i])
  }

  lemma AtStart(s: Text)
    ensures Finished(s, 0) == [] && Current(s, 0) == []
  {
  }

  lemma AtDot(s: Text, i: nat)
    requires i < |s| && IsDot(s[i])
    ensures Finished(s, i + 1) == Finished(s, i) + [Current(s, i)] && Current(s, i + 1) == []
  {
    assert s[..i + 1][..i] == s[..i];
  }

  lemma AtUnit(s: Text, i: nat)
    requires i < |s| && !IsDot(s[i])
    ensures Finished(s, i + 1) == Finished(s, i) && Current(s, i + 1) == Current(s, i) + [s[i]]
  {
    assert s[..i + 1][..i] == s[..i];
  }

  lemma AtEnd(s: Text, i: nat)
    requires i <= |s|
    ensures Labels(s[..i]) == Finished(s, i) + [Current(s, i)] && LastLabel(s[..i]) == Current(s, i)
    ensures i == |s| ==> Labels(s) == Finished(s, i) + [Current(s, i)] && LastLabel(s) == Current(s, i)
  {
    assert i == |s| ==> s[..i] == s;
  }

  /** Reading on keeps the finished labels and only extends the current one. */
  lemma {:induction false} ReadOn(s: Text, i: nat, j: nat)
    requires i <= j <= |s|
    ensures Finished(s, i) <= Finished(s, j)
    ensures Current(s, i) <= (Finished(s, j) + [Current(s, j)])[|Finished(s, i)|]
    decreases j - i
  {
    hide Finished, Current;
    if i < j {
      ReadOn(s, i, j - 1);
      if IsDot(s[j - 1]) {
        AtDot(s, j - 1);
      } else {
        AtUnit(s, j - 1);
      }
    }
  }

  /** Joining the labels with dots gives the text back, and no label contains a dot. */
  function Join(labels: seq<Text>): Text {
    if labels == [] then []
    else if |labels| == 1 then labels[0]
    else Join(labels[..|labels| - 1]) + [DOT] + labels[|labels| - 1]
  }

  ghost predicate NoDots(part: Text) {
    forall i :: 0 <= i < |part| ==> !IsDot(part[i])
  }

  lemma JoinIs(labels: seq<Text>)
    requires labels != []
    ensures var front, last := labels[..|labels| - 1], labels[|labels| - 1];
            Join(labels) == if |labels| == 1 then last else Join(front) + [DOT] + last
  {
  }

  lemma JoinNewLabel(r: seq<Text>)
    requires r != []
    ensures Join(r + [[]]) == Join(r) + [DOT]
  {
    JoinIs(r + [[]]);
    hide Join;
    assert (r + [[]])[..|r|] == r && Join(r) + [DOT] + [] == Join(r) + [DOT];
  }

  lemma JoinLongerLabel(r: seq<Text>, c: CodeUnit)
    requires r != []
    ensures Join(r[..|r| - 1] + [r[|r| - 1] + [c]]) == Join(r) + [c]
  {
    var front, last := r[..|r| - 1], r[|r| - 1];
    var longer := front + [last + [c]];
    JoinIs(r);
    JoinIs(longer);
    hide Join;
    assert longer[..|r| - 1] == front && longer[|r| - 1] == last + [c];
    if |r| > 1 {
      Assoc(Join(front) + [DOT], last, [c]);
    }
  }

  lemma {:induction false} LabelsJoin(s: Text)
    ensures Join(Labels(s)) == s
    decreases |s|
  {
    if s != [] {
      var t, c := s[..|s| - 1], s[|s| - 1];
      LabelsJoin(t);
      assert s == t + [c];
      if IsDot(c) {
        JoinNewLabel(Labels(t));
      } else {
        JoinLongerLabel(Labels(t), c);
      }
    }
  }

  lemma {:induction false} LabelsHaveNoDots(s: Text)
    ensures forall k :: 0 <= k < |Labels(s)| ==> NoDots(Labels(s)[k])
    decreases |s|
  {
    if s != [] {
      LabelsHaveNoDots(s[..|s| - 1]);
    }
  }

  lemma {:induction false} LabelsOfLabel(s: Text, part: Text)
    requires NoDots(part)
    ensures Labels(s + [DOT] + part) == Labels(s) + [part]
    decreases |part|
  {
    var whole := s + [DOT] + part;
    if part == [] {
      assert whole[..|whole| - 1] == s;
    } else {
      var shorter := part[..|part| - 1];
      LabelsOfLabel(s, shorter);
      assert whole[..|whole| - 1] == s + [DOT] + shorter;
      assert shorter + [part[|part| - 1]] == part;
      assert (Labels(s) + [shorter])[..|Labels(s)|] == Labels(s);
    }
  }

  lemma {:induction false} OneLabel(part: Text)
    requires NoDots(part)
    ensures Labels(part) == [part]
    decreases |part|
  {
    if part != [] {
      OneLabel(part[..|part| - 1]);
      assert part[..|part| - 1] + [part[|part| - 1]] == part;
    }
  }

  // ---------------------------------------------------------------------------------------------
  // IPv4 addresses
  // ---------------------------------------------------------------------------------------------

  /** One to three ASCII digits with a value up to 255; leading zeros are fine. */
  ghost predicate Octet(s: Text) {
    1 <= |s| <= 3 && AllDigits(s) && Value(s) <= 255
  }

  ghost predicate Ipv4(host: Text) {
    && |Labels(host)| == 4
    && forall k :: 0 <= k < 4 ==> Octet(Labels(host)[k])
  }

  lemma AddressParts(host: Text)
    requires Ipv4(host)
    ensures var l := Labels(host); host == l[0] + [DOT] + l[1] + [DOT] + l[2] + [DOT] + l[3]
  {
    LabelsJoin(host);
    var l := Labels(host);
    hide Labels, Octet;
    var l3, l2, l1 := l[..3], l[..2], l[..1];
    assert l3[..2] == l2 && l2[..1] == l1 && l3[2] == l[2] && l2[1] == l[1] && l1[0] == l[0];
    assert Join(l2) == Join(l1) + [DOT] + l[1];
    assert Join(l3) == Join(l2) + [DOT] + l[2];
  }

  lemma PartsMakeAddress(a: Text, b: Text, c: Text, d: Text)
    requires Octet(a) && Octet(b) && Octet(c) && Octet(d)
    ensures Ipv4(a + [DOT] + b + [DOT] + c + [DOT] + d)
  {
    OneLabel(a);
    LabelsOfLabel(a, b);
    LabelsOfLabel(a + [DOT] + b, c);
    LabelsOfLabel(a + [DOT] + b + [DOT] + c, d);
  }

  /** In other words: exactly four octets separated by dots. */
  lemma Ipv4Shape(host: Text)
    ensures Ipv4(host) <==> exists a, b, c, d ::
              Octet(a) && Octet(b) && Octet(c) && Octet(d)
              && host == a + [DOT] + b + [DOT] + c + [DOT] + d
  {
    hide Octet;
    if Ipv4(host) {
      AddressParts(host);
    }
    if a, b, c, d :| Octet(a) && Octet(b) && Octet(c) && Octet(d) && host == a + [DOT] + b + [DOT] + c + [DOT] + d {
      PartsMakeAddress(a, b, c, d);
    }
  }

  predicate IsUnit(c: CodeUnit, from: char, to: char) {
    from as int <= c <= to as int
  }

  /** `dec-octet` of section 3.2.2 of RFC 3986, alternative by alternative. */
  ghost predicate DecOctet(s: Text) {
    || (|s| == 1 && IsUnit(s[0], '0', '9'))
    || (|s| == 2 && IsUnit(s[0], '1', '9') && IsUnit(s[1], '0', '9'))
    || (|s| == 3 && IsUnit(s[0], '1', '1') && IsUnit(s[1], '0', '9') && IsUnit(s[2], '0', '9'))
    || (|s| == 3 && IsUnit(s[0], '2', '2') && IsUnit(s[1], '0', '4') && IsUnit(s[2], '0', '9'))
    || (|s| == 3 && IsUnit(s[0], '2', '2') && IsUnit(s[1], '5', '5') && IsUnit(s[2], '0', '5'))
  }

  /** `IPv4address` of the same section. */
  ghost predicate RfcAddress(host: Text) {
    |Labels(host)| == 4 && forall k :: 0 <= k < 4 ==> DecOctet(Labels(host)[k])
  }

  ghost predicate NoLeadingZero(s: Text) {
    |s| > 1 ==> s[0] != ZERO
  }

  lemma DecOctetIff(s: Text)
    ensures DecOctet(s) <==> Octet(s) && NoLeadingZero(s)
  {
    if 1 <= |s| <= 3 {
      SmallValue(s);
    }
    hide Value;
  }

  lemma SmallValue(s: Text)
    requires 1 <= |s| <= 3
    ensures Value(s) == if |s| == 1 then DigitValue(s[0])
                        else if |s| == 2 then 10 * DigitValue(s[0]) + DigitValue(s[1])
                        else 100 * DigitValue(s[0]) + 10 * DigitValue(s[1]) + DigitValue(s[2])
  {
    var one, two := s[..1], s[..|s| - 1];
    assert Value(one) == DigitValue(s[0]) by {
      assert one[..0] == [];
    }
    if |s| == 3 {
      assert two[..1] == one;
    }
    if |s| == 1 {
      assert s == one;
    }
  }

  /** The addresses of the RFC are those accepted here in which no group has a leading zero. */
  lemma RfcAddressIff(host: Text)
    ensures RfcAddress(host) <==> Ipv4(host) && forall k :: 0 <= k < |Labels(host)| ==> NoLeadingZero(Labels(host)[k])
  {
    var l := Labels(host);
    forall k | 0 <= k < |l| ensures DecOctet(l[k]) <==> Octet(l[k]) && NoLeadingZero(l[k]) {
      DecOctetIff(l[k]);
    }
    hide DecOctet, Octet, NoLeadingZero, Labels;
    if RfcAddress(host) {
      assert forall k :: 0 <= k < 4 ==> DecOctet(l[k]) && Octet(l[k]) && NoLeadingZero(l[k]);
    }
  }

  /** Leading zeros are accepted: 001.0.00.1 is an address here. */
  lemma LeadingZerosAreAccepted()
    ensures Ipv4([0x30, 0x30, 0x31] + [DOT] + [0x30] + [DOT] + [0x30, 0x30] + [DOT] + [0x31])
  {
    var a: Text, b: Text, c: Text, d: Text := [0x30, 0x30, 0x31], [0x30], [0x30, 0x30], [0x31];
    assert a[..2] == c && c[..1] == b && d[..0] == [];
    PartsMakeAddress(a, b, c, d);
  }

  ghost predicate Octets(labels: seq<Text>) {
    forall k :: 0 <= k < |labels| ==> Octet(labels[k])
  }

  ghost predicate OctetStart(section: Text) {
    |section| <= 3 && AllDigits(section) && Value(section) <= 255
  }

  /** What has been read up to `i` may still become an address. */
  ghost predicate Reading(host: Text, i: nat)
    requires i <= |host|
  {
    |Finished(host, i)| <= 3 && Octets(Finished(host, i)) && OctetStart(Current(host, i))
  }

  lemma {:induction false} Ipv4Prefix(host: Text, i: nat)
    requires i <= |host|
    ensures !Reading(host, i) ==> !Ipv4(host)
  {
    if Ipv4(host) {
      ReadOn(host, i, |host|);
      AtEnd(host, |host|);
      hide Finished, Current;
      ValueGrows(Current(host, i), Labels(host)[|Finished(host, i)|]);
    }
  }

  lemma OctetsSnoc(labels: seq<Text>, section: Text)
    ensures Octets(labels + [section]) <==> Octets(labels) && Octet(section)
  {
    var more := labels + [section];
    assert more[|labels|] == section && forall k :: 0 <= k < |labels| ==> more[k] == labels[k];
  }

  lemma OctetStartSnoc(section: Text, c: CodeUnit)
    requires OctetStart(section)
    ensures OctetStart(section + [c]) <==> IsAsciiDigit(c) && Value(section + [c]) <= 255 && |section| < 3
  {
  }

  lemma OctetStartValue(section: Text)
    requires OctetStart(section)
    ensures 0 <= Value(section) <= 255 && |section| <= 3 && (section != [] <==> Octet(section)) && OctetStart([])
  {
  }

  /** Reading a dot finishes the current label. */
  lemma ReadDot(host: Text, i: nat)
    requires i < |host| && Reading(host, i) && IsDot(host[i])
    ensures |Finished(host, i + 1)| == |Finished(host, i)| + 1 && Current(host, i + 1) == []
    ensures Reading(host, i + 1) <==> Current(host, i) != [] && |Finished(host, i)| < 3
  {
    AtDot(host, i);
    hide Finished, Current, Octets, Octet, OctetStart;
    OctetsSnoc(Finished(host, i), Current(host, i));
    OctetStartValue(Current(host, i));
  }

  /** Reading another unit extends it. */
  lemma ReadUnit(host: Text, i: nat)
    requires i < |host| && Reading(host, i) && !IsDot(host[i])
    ensures Finished(host, i + 1) == Finished(host, i) && |Current(host, i + 1)| == |Current(host, i)| + 1
    ensures Value(Current(host, i + 1)) == Value(Current(host, i)) * 10 + DigitValue(host[i])
    ensures Reading(host, i + 1)
            <==> IsAsciiDigit(host[i]) && Value(Current(host, i + 1)) <= 255 && |Current(host, i)| < 3
  {
    AtUnit(host, i);
    hide Finished, Current, Octets, OctetStart, Value;
    ValueSnoc(Current(host, i), host[i]);
    OctetStartSnoc(Current(host, i), host[i]);
  }

  lemma ReadingValue(host: Text, i: nat)
    requires i <= |host| && Reading(host, i)
    ensures 0 <= Value(Current(host, i)) <= 255 && |Current(host, i)| <= 3 && |Finished(host, i)| <= 3
  {
  }

  lemma ReadingStarts(host: Text)
    ensures Reading(host, 0) && Finished(host, 0) == [] && Current(host, 0) == [] && Value([]) == 0
  {
  }

  /** When everything is read, what has been read so far decides. */
  lemma ReadingDone(host: Text)
    requires Reading(host, |host|)
    ensures Ipv4(host) <==> |Finished(host, |host|)| == 3 && Current(host, |host|) != []
  {
    AtEnd(host, |host|);
    hide Finished, Current;
    OctetsSnoc(Finished(host, |host|), Current(host, |host|));
    OctetStartValue(Current(host, |host|));
    assert Ipv4(host) <==> |Labels(host)| == 4 && Octets(Labels(host));
  }

  /** The scanning loop; `sectionValue` is a 16 bit unit that never wraps around. */
  method IsValidIpv4(host: Text) returns (valid: bool)
    ensures valid <==> Ipv4(host)
  {
    hide Finished, Current, Reading, Ipv4, Value;
    var sectionValue, octetNumber, sectionDigits, lastWasDot := 0, 0, 0, true;
    ReadingStarts(host);
    for i := 0 to |host|
      invariant Reading(host, i) && octetNumber == |Finished(host, i)|
      invariant sectionDigits == |Current(host, i)| && sectionValue == Value(Current(host, i))
      invariant lastWasDot <==> sectionDigits == 0
    {
      var current := host[i];
      ReadingValue(host, i);
      Ipv4Prefix(host, i + 1);
      if IsDot(current) {
        ReadDot(host, i);
        if lastWasDot || octetNumber == 3 {
          return false;
        }
        lastWasDot := true;
        octetNumber := octetNumber + 1;
        sectionValue := 0;
        sectionDigits := 0;
        continue;
      }
      ReadUnit(host, i);
      lastWasDot := false;
      if current > '9' as int || current < '0' as int {
        return false;
      }
      sectionValue := (sectionValue * 10 + (current - '0' as int)) % 0x1_0000;
      sectionDigits := sectionDigits + 1;
      if sectionValue >= 256 || sectionDigits > 3 {
        return false;
      }
    }
    ReadingDone(host);
    return octetNumber == 3 && !lastWasDot;
  }

  // ---------------------------------------------------------------------------------------------
  // The grammar
  // ---------------------------------------------------------------------------------------------

  /** `source[from..to]` is what is left without ignored units at both ends. */
  ghost predicate Stripped(source: Text, from: nat, to: nat) {
    && from <= to <= |source|
    && (forall k :: 0 <= k < from ==> IsIgnoredPrefix(source[k]))
    && (forall k :: to <= k < |source| ==> IsIgnoredSuffix(source[k]))
    && (from < |source| ==> !IsIgnoredPrefix(source[from]))
    && (from < to ==> !IsIgnoredSuffix(source[to - 1]))
  }

  predicate IsLetter(c: CodeUnit, lower: char, upper: char) {
    c == lower as int || c == upper as int
  }

  predicate IsHttp(s: Text) {
    |s| == 4 && IsLetter(s[0], 'h', 'H') && IsLetter(s[1], 't', 'T') && IsLetter(s[2], 't', 'T') && IsLetter(s[3], 'p', 'P')
  }

  predicate IsColonSlashSlash(s: Text) {
    |s| == 3 && s[0] == ':' as int && s[1] == '/' as int && s[2] == '/' as int
  }

  /** `http://` or `https://`, in any case. */
  predicate IsProtocol(s: Text) {
    || (|s| == 7 && IsHttp(s[..4]) && IsColonSlashSlash(s[4..]))
    || (|s| == 8 && IsHttp(s[..4]) && IsLetter(s[4], 's', 'S') && IsColonSlashSlash(s[5..]))
  }

  /** The text, with ASCII letters in lower case, reads `word`. */
  ghost predicate ReadsAs(s: Text, word: string) {
    |s| == |word| && forall i :: 0 <= i < |s| ==> (if 0x41 <= s[i] <= 0x5A then s[i] + 0x20 else s[i]) == word[i] as int
  }

  lemma ProtocolIs(s: Text)
    ensures IsProtocol(s) <==> ReadsAs(s, "http://") || ReadsAs(s, "https://")
  {
    var plain, secure := "http://", "https://";
    if ReadsAs(s, plain) {
      assert IsHttp(s[..4]);
    }
    if ReadsAs(s, secure) {
      assert IsHttp(s[..4]);
    }
  }

  /** The protocol is taken whenever there is one in a text of at least eight units. */
  ghost predicate ProtocolPart(s: Text, p: nat) {
    && p <= |s|
    && if |s| >= 8 && (IsProtocol(s[..7]) || IsProtocol(s[..8])) then IsProtocol(s[..p]) else p == 0
  }

  /** A host is two or more non-empty labels; it is accepted as an address or for its last label. */
  ghost predicate Host(t: Tables, host: Text) {
    && (forall i :: 0 <= i < |host| ==> IsDomainChar(host[i]))
    && |Labels(host)| >= 2 && (forall k :: 0 <= k < |Labels(host)| ==> Labels(host)[k] != [])
    && (Ipv4(host) || t.isTld(LastLabel(host)))
  }

  /** Up to five digits: all there is, five of them, or some that a separator follows. */
  ghost predicate PortStart(t: Tables, s: Text) {
    exists n :: 0 <= n <= 5 && n <= |s| && PortDigits(t, s, n)
                && (n == 5 || n == |s| || (1 <= n && IsSeparator(s[n])))
  }

  ghost predicate PortDigits(t: Tables, s: Text, n: nat) {
    n <= |s| && forall i :: 0 <= i < n ==> t.isDigit(s[i]) && (i >= 1 ==> !IsSeparator(s[i]))
  }

  /** The port the documentation speaks of: one to five digits and a separator. */
  ghost predicate SeparatedPort(t: Tables, s: Text) {
    exists n :: 1 <= n <= 5 && n < |s| && PortDigits(t, s, n) && IsSeparator(s[n])
  }

  /** One to five digits and nothing else. */
  ghost predicate FinalPort(t: Tables, s: Text) {
    1 <= |s| <= 5 && PortDigits(t, s, |s|)
  }

  /** Five digits, and then something that is no separator. */
  ghost predicate LongPort(t: Tables, s: Text) {
    |s| > 5 && PortDigits(t, s, 5) && !IsSeparator(s[5])
  }

  /** What the port check accepts: the documented port and what goes beyond that. */
  lemma PortIsDocumentedOr(t: Tables, s: Text)
    ensures PortStart(t, s) <==> SeparatedPort(t, s) || FinalPort(t, s) || LongPort(t, s) || s == []
  {
    assert PortDigits(t, s, 0);
    if PortStart(t, s) {
      var n :| 0 <= n <= 5 && n <= |s| && PortDigits(t, s, n) && (n == 5 || n == |s| || (1 <= n && IsSeparator(s[n])));
      if 0 < n < |s| && IsSeparator(s[n]) {
        assert SeparatedPort(t, s);
      }
    }
  }

  ghost predicate Rest(t: Tables, rest: Text) {
    || rest == []
    || IsSeparator(rest[0])
    || (rest[0] == ':' as int && PortStart(t, rest[1..]))
  }

  /** The text splits into protocol `s[..p]`, host `s[p..h]` and rest `s[h..]`. */
  ghost predicate Grammar(t: Tables, s: Text, p: nat, h: nat) {
    p <= h <= |s| && ProtocolPart(s, p) && Host(t, s[p..h]) && Rest(t, s[h..])
  }

  // --- parentheses ------------------------------------------------------------------------------

  /** How many parentheses opened from `from` on are still open before position `k`. */
  function Depth(source: Text, from: nat, k: nat): nat
    requires k <= |source|
    decreases k
  {
    if k <= from then 0
    else
      var d := Depth(source, from, k - 1);
      if source[k - 1] == '(' as int then d + 1
      else if source[k - 1] == ')' as int && d > 0 then d - 1
      else d
  }

  /** How many more parentheses are opened than closed from `j` to `k`. */
  ghost function Excess(source: Text, j: nat, k: nat): int
    requires j <= k <= |source|
  {
    multiset(source[j..k])['(' as int] as int - multiset(source[j..k])[')' as int] as int
  }

  /** What one unit contributes. */
  function Step(c: CodeUnit): int {
    if c == '(' as int then 1 else if c == ')' as int then -1 else 0
  }

  /** The nesting depth is the largest excess of opened parentheses in any stretch that ends there. */
  lemma {:induction false} DepthIs(source: Text, from: nat, k: nat)
    requires from <= k <= |source|
    ensures forall j :: from <= j <= k ==> Excess(source, j, k) <= Depth(source, from, k)
    ensures exists j :: from <= j <= k && Excess(source, j, k) == Depth(source, from, k)
    decreases k
  {
    assert Excess(source, k, k) == 0;
    if from < k {
      DepthIs(source, from, k - 1);
      var d := Depth(source, from, k);
      forall j | from <= j < k ensures Excess(source, j, k) == Excess(source, j, k - 1) + Step(source[k - 1]) {
        assert source[j..k] == source[j..k - 1] + [source[k - 1]];
      }
      var j :| from <= j < k && Excess(source, j, k - 1) == Depth(source, from, k - 1);
      hide Excess;
      assert Excess(source, if d == 0 then k else j, k) == d;
    }
  }

  /** Position `r` is right behind a parenthesis that closes the last open one. */
  predicate ReturnsAt(source: Text, from: nat, r: nat) {
    from < r <= |source| && source[r - 1] == ')' as int && Depth(source, from, r - 1) == 1
  }

  /** The link ends where the stripped text does, or later at the last return to depth zero. */
  ghost predicate LinkEnd(source: Text, rest: nat, to: nat, end: nat) {
    && to <= end <= |source|
    && (end == to || ReturnsAt(source, rest, end))
    && forall r :: to < r <= |source| && ReturnsAt(source, rest, r) ==> r <= end
  }

  /** A view into the source; a null view is not in it and empty. */
  datatype View = Null | View(from: nat, to: nat) {
    ghost predicate In(source: Text) { View? ==> from <= to <= |source| }

    function Of(source: Text): Text
      requires In(source)
    {
      if Null? then [] else source[from..to]
    }

    predicate Empty() { Null? || from == to }

    /** The same view into what is left when the first `cut` units are taken away. */
    function Shifted(cut: nat): View
      requires View? ==> cut <= from <= to
    {
      if Null? then Null else View(from - cut, to - cut)
    }
  }

  /** Four views, each with bounds of its own. */
  datatype Parsed = Parsed(protocol: View, host: View, rest: View, link: View) {
    ghost predicate In(source: Text) {
      protocol.In(source) && host.In(source) && rest.In(source) && link.In(source) && link.View? && host.View?
    }

    /** Whether the link and all that is in it start no earlier than at `cut`. */
    ghost predicate StartsAt(cut: nat) {
      && (protocol.View? ==> cut <= protocol.from <= protocol.to) && (host.View? ==> cut <= host.from <= host.to)
      && (rest.View? ==> cut <= rest.from <= rest.to) && (link.View? ==> cut <= link.from <= link.to)
    }

    function Shifted(cut: nat): Parsed
      requires StartsAt(cut)
    {
      Parsed(protocol.Shifted(cut), host.Shifted(cut), rest.Shifted(cut), link.Shifted(cut))
    }

    function Prefix(source: Text): Text requires In(source) { source[..link.from] }
    function Suffix(source: Text): Text requires In(source) { source[link.to..] }
    predicate HasPrefix(source: Text) requires link.View? { link.from != 0 }
    predicate HasSuffix(source: Text) requires link.View? { link.to != |source| }
  }

  /** The host is where the grammar has it in the stripped text from `from` to `to`. */
  ghost predicate HostRead(t: Tables, source: Text, from: nat, host: View, to: nat) {
    && host.View? && Stripped(source, from, to) && from <= host.from <= host.to <= to
    && Grammar(t, source[from..to], host.from - from, host.to - from)
  }

  /** The protocol is there if there is one. */
  ghost predicate ProtocolRead(source: Text, from: nat, protocol: View, to: nat)
    requires from <= to <= |source|
  {
    if protocol.Null? then ProtocolPart(source[from..to], 0)
    else protocol.from == from < protocol.to && ProtocolPart(source[from..to], protocol.to - from)
  }

  /** The rest is what follows the host, if anything, and reaches as far as a link may. */
  ghost predicate RestRead(source: Text, h: nat, rest: View, to: nat) {
    if h == to then rest.Null? else rest.View? && rest.from == h && LinkEnd(source, h, to, rest.to)
  }

  /**
   `parsed` is a correct reading of `source`, whose stripped part ends at `to`. Each of the four views is
   described on its own.
   */
  ghost predicate Reads(t: Tables, source: Text, parsed: Parsed, to: nat) {
    && parsed.link.View? && HostRead(t, source, parsed.link.from, parsed.host, to)
    && ProtocolRead(source, parsed.link.from, parsed.protocol, to)
    && LinkEnd(source, parsed.host.to, to, parsed.link.to)
    && RestRead(source, parsed.host.to, parsed.rest, to)
  }

  // ---------------------------------------------------------------------------------------------
  // The grammar is unambiguous
  // ---------------------------------------------------------------------------------------------

  lemma StrippedUnique(source: Text, a: nat, b: nat, c: nat, d: nat)
    requires Stripped(source, a, b) && Stripped(source, c, d)
    ensures a == c && b == d
  {
  }

  lemma ProtocolUnique(s: Text, p: nat, q: nat)
    requires ProtocolPart(s, p) && ProtocolPart(s, q)
    ensures p == q
  {
  }

  /** The host ends at the first unit that cannot be part of one. */
  lemma HostUnique(t: Tables, s: Text, h: nat, g: nat)
    requires h <= |s| && Host(t, s[..h]) && Rest(t, s[h..])
    requires g <= |s| && Host(t, s[..g]) && Rest(t, s[g..])
    ensures h == g
  {
  }

  lemma GrammarUnique(t: Tables, s: Text, p: nat, h: nat, q: nat, g: nat)
    requires Grammar(t, s, p, h) && Grammar(t, s, q, g)
    ensures p == q && h == g
  {
    ProtocolUnique(s, p, q);
    hide Host, Rest, ProtocolPart;
    var r := s[p..];
    CutTwice(s, p, h);
    CutTwice(s, p, g);
    HostUnique(t, r, h - p, g - p);
  }

  lemma LinkEndUnique(source: Text, rest: nat, to: nat, a: nat, b: nat)
    requires LinkEnd(source, rest, to, a) && LinkEnd(source, rest, to, b)
    ensures to <= a == b <= |source|
  {
    hide ReturnsAt;
  }

  /** The views lie next to each other, and the link reaches from the first to the last. */
  lemma ViewsAreAdjacent(t: Tables, source: Text, parsed: Parsed, to: nat)
    requires Reads(t, source, parsed, to)
    ensures parsed.In(source) && parsed.host.to <= to <= parsed.link.to
    ensures parsed.host.from < parsed.host.to
    ensures if parsed.protocol.Null? then parsed.host.from == parsed.link.from
            else parsed.protocol.from == parsed.link.from && parsed.protocol.to == parsed.host.from
    ensures if parsed.rest.Null? then parsed.host.to == parsed.link.to
            else parsed.rest.from == parsed.host.to && parsed.rest.to == parsed.link.to
  {
    HostSpans(t, source, parsed.link.from, parsed.host, to);
    ProtocolAdjacent(t, source, parsed.link.from, parsed.protocol, parsed.host, to);
    LinkEndUnique(source, parsed.host.to, to, parsed.link.to, parsed.link.to);
    RestAdjacent(source, parsed.link.from, parsed.host.to, parsed.rest, to, parsed.link.to);
    hide HostRead, ProtocolRead, RestRead, LinkEnd;
  }

  lemma HostSpans(t: Tables, source: Text, from: nat, host: View, to: nat)
    requires HostRead(t, source, from, host, to)
    ensures from <= host.from < host.to <= to <= |source| && Stripped(source, from, to)
    ensures ProtocolPart(source[from..to], host.from - from)
  {
    GrammarSpan(t, source[from..to], host.from - from, host.to - from);
    hide Grammar, ProtocolPart;
  }

  lemma ProtocolAdjacent(t: Tables, source: Text, from: nat, protocol: View, host: View, to: nat)
    requires HostRead(t, source, from, host, to) && ProtocolRead(source, from, protocol, to)
    ensures if protocol.Null? then host.from == from else protocol.from == from && protocol.to == host.from
  {
    HostSpans(t, source, from, host, to);
    hide HostRead, ProtocolPart;
    ProtocolUnique(source[from..to], host.from - from, if protocol.Null? then 0 else protocol.to - from);
  }

  lemma RestAdjacent(source: Text, from: nat, h: nat, rest: View, to: nat, end: nat)
    requires Stripped(source, from, to) && h <= to && RestRead(source, h, rest, to) && LinkEnd(source, h, to, end)
    ensures if rest.Null? then h == end else rest.from == h && rest.to == end
  {
    if rest.Null? {
      NothingReturns(source, h, to);
      LinkEndUnique(source, h, to, end, to);
    } else {
      LinkEndUnique(source, h, to, end, rest.to);
    }
    hide LinkEnd, Stripped;
  }

  lemma GrammarSpan(t: Tables, s: Text, p: nat, h: nat)
    requires Grammar(t, s, p, h)
    ensures ProtocolPart(s, p) && p < h <= |s|
  {
  }

  lemma HostReadUnique(t: Tables, source: Text, from: nat, host: View, to: nat, from': nat, host': View, to': nat)
    requires HostRead(t, source, from, host, to) && HostRead(t, source, from', host', to')
    ensures from == from' && host == host' && to == to'
  {
    StrippedUnique(source, from, to, from', to');
    hide Grammar, Stripped;
    GrammarUnique(t, source[from..to], host.from - from, host.to - from, host'.from - from, host'.to - from);
  }

  /** A source has at most one reading. */
  lemma {:induction false} ReadingUnique(t: Tables, source: Text, a: Parsed, i: nat, b: Parsed, j: nat)
    requires Reads(t, source, a, i) && Reads(t, source, b, j)
    ensures a == b && i == j
  {
    ViewsAreAdjacent(t, source, a, i);
    ViewsAreAdjacent(t, source, b, j);
    hide HostRead, ProtocolRead, RestRead, LinkEnd;
    HostReadUnique(t, source, a.link.from, a.host, i, b.link.from, b.host, j);
    LinkEndUnique(source, a.host.to, i, a.link.to, b.link.to);
  }

  /** The segments partition the link and, with prefix and suffix, the source; the host is never empty. */
  lemma SegmentsPartition(t: Tables, source: Text, parsed: Parsed, to: nat)
    requires Reads(t, source, parsed, to)
    ensures parsed.In(source)
    ensures parsed.protocol.Of(source) + parsed.host.Of(source) + parsed.rest.Of(source) == parsed.link.Of(source)
    ensures parsed.Prefix(source) + parsed.link.Of(source) + parsed.Suffix(source) == source
    ensures parsed.host.Of(source) != []
    ensures parsed.HasPrefix(source) <==> parsed.Prefix(source) != []
    ensures parsed.HasSuffix(source) <==> parsed.Suffix(source) != []
  {
    ViewsAreAdjacent(t, source, parsed, to);
    hide Reads;
    Slices(source, parsed.link.from, parsed.host.from, parsed.host.to, parsed.link.to);
  }

  lemma Slices(source: Text, a: nat, b: nat, c: nat, d: nat)
    requires a <= b <= c <= d <= |source|
    ensures source[a..b] + source[b..c] + source[c..d] == source[a..d]
    ensures source[..a] + source[a..d] + source[d..] == source
  {
  }

  lemma {:induction false} DepthNeedsOpen(source: Text, from: nat, k: nat)
    requires k <= |source| && 0 < Depth(source, from, k)
    ensures exists i: nat :: from <= i < k && source[i] == '(' as int
    decreases k
  {
    if source[k - 1] != '(' as int {
      DepthNeedsOpen(source, from, k - 1);
    }
  }

  /** What follows the port in the rest also does when the rest grows. */
  lemma PortGrows(t: Tables, s: Text, longer: Text)
    requires s <= longer && PortStart(t, s) && s != []
    requires s == longer || exists c :: c in s && !t.isDigit(c)
    ensures SeparatedPort(t, longer) || FinalPort(t, longer) || LongPort(t, longer)
  {
    PortIsDocumentedOr(t, s);
    if SeparatedPort(t, s) {
      var n :| 1 <= n <= 5 && n < |s| && PortDigits(t, s, n) && IsSeparator(s[n]);
      assert PortDigits(t, longer, n);
    } else if LongPort(t, s) {
      assert PortDigits(t, longer, 5);
    }
  }

  /**
   A link that has a port has a documented one, one that ends the link, or five digits with anything
   else behind them. It never has an empty one: a colon at the end is stripped.
   */
  lemma LinkPort(t: Tables, source: Text, parsed: Parsed, to: nat)
    requires Reads(t, source, parsed, to) && !t.isDigit('(' as int)
    ensures parsed.rest.In(source)
    ensures parsed.rest.View? ==>
              var rest := parsed.rest.Of(source);
              && rest != []
              && (IsSeparator(rest[0])
                  || (rest[0] == ':' as int
                      && (SeparatedPort(t, rest[1..]) || FinalPort(t, rest[1..]) || LongPort(t, rest[1..]))))
  {
    ViewsAreAdjacent(t, source, parsed, to);
    if parsed.rest.View? {
      HostThenRestRead(t, source, parsed.link.from, parsed.host, to);
      RestPort(t, source, parsed.host.to, to, parsed.rest.to);
    }
    hide Reads, SeparatedPort, FinalPort, LongPort;
  }

  lemma HostThenRestRead(t: Tables, source: Text, from: nat, host: View, to: nat)
    requires HostRead(t, source, from, host, to)
    ensures host.to <= to <= |source|
    ensures host.to < to && source[host.to] != ':' as int ==> IsSeparator(source[host.to])
    ensures host.to < to && source[host.to] == ':' as int ==> PortStart(t, source[host.to + 1..to])
    ensures from < to && !IsIgnoredSuffix(source[to - 1])
    ensures forall k :: to <= k < |source| ==> IsIgnoredSuffix(source[k])
  {
    HostSpans(t, source, from, host, to);
    CutBehind(source, from, host.to, to);
    if host.to < to {
      BehindFirst(source, host.to, to);
    }
    hide Host, ProtocolPart, PortStart;
  }

  lemma RestPort(t: Tables, source: Text, h: nat, to: nat, end: nat)
    requires h < to <= |source| && !IsIgnoredSuffix(source[to - 1])
    requires if source[h] == ':' as int then PortStart(t, source[h + 1..to]) else IsSeparator(source[h])
    requires forall k :: to <= k < |source| ==> IsIgnoredSuffix(source[k])
    requires LinkEnd(source, h, to, end) && !t.isDigit('(' as int)
    ensures var rest := source[h..end];
            && rest != []
            && (IsSeparator(rest[0])
                || (rest[0] == ':' as int
                    && (SeparatedPort(t, rest[1..]) || FinalPort(t, rest[1..]) || LongPort(t, rest[1..]))))
  {
    var s, longer := source[h + 1..to], source[h + 1..end];
    BehindFirst(source, h, end);
    hide PortStart, SeparatedPort, FinalPort, LongPort;
    if source[h] == ':' as int {
      OpenedInRest(source, h, to, end);
      PortGrows(t, s, longer);
    }
  }

  lemma BehindFirst(source: Text, h: nat, to: nat)
    requires h < to <= |source|
    ensures source[h..to][0] == source[h] && source[h..to][1..] == source[h + 1..to]
  {
  }

  /** The rest only grows if a parenthesis was opened in it. */
  lemma OpenedInRest(source: Text, h: nat, to: nat, end: nat)
    requires h < to <= |source| && source[h] == ':' as int && !IsIgnoredSuffix(source[to - 1])
    requires forall k :: to <= k < |source| ==> IsIgnoredSuffix(source[k])
    requires LinkEnd(source, h, to, end)
    ensures source[h + 1..to] != [] && source[h + 1..to] <= source[h + 1..end]
    ensures end == to || '(' as int in source[h + 1..to]
  {
    assert source[h + 1..to] == source[h + 1..end][..to - h - 1];
    if end != to {
      DepthNeedsOpen(source, h, end - 1);
      var i: nat :| h <= i < end - 1 && source[i] == '(' as int;
      assert source[h + 1..to][i - h - 1] == '(' as int;
    }
  }

  lemma CutBehind(source: Text, link: nat, h: nat, to: nat)
    requires link <= h <= to <= |source|
    ensures source[link..to][h - link..] == source[h..to]
  {
  }

  lemma {:induction false} DepthShift(source: Text, cut: nat, end: nat, from: nat, k: nat)
    requires cut <= from && cut <= k <= end <= |source|
    ensures Depth(source[cut..end], from - cut, k - cut) == Depth(source, from, k)
    decreases k
  {
    if k > from {
      DepthShift(source, cut, end, from, k - 1);
      assert source[cut..end][k - 1 - cut] == source[k - 1];
    }
  }

  /** Parsing the link again yields the same segments. */
  lemma ReparseIsStable(t: Tables, source: Text, parsed: Parsed, to: nat)
    requires Reads(t, source, parsed, to)
    ensures parsed.In(source) && parsed.link.from <= to && parsed.StartsAt(parsed.link.from)
    ensures Reads(t, parsed.link.Of(source), parsed.Shifted(parsed.link.from), to - parsed.link.from)
  {
    ViewsAreAdjacent(t, source, parsed, to);
    HostSpans(t, source, parsed.link.from, parsed.host, to);
    hide HostRead, ProtocolRead, RestRead, LinkEnd, ProtocolPart, Stripped;
    assert Placed(source, parsed, to);
    HostReadAgain(t, source, parsed, to);
    ProtocolReadAgain(source, parsed, to);
    EndsReadAgain(source, parsed, to);
    ReadsFromParts(t, parsed.link.Of(source), parsed.Shifted(parsed.link.from), to - parsed.link.from);
  }

  /** Where the views of a reading are. */
  ghost predicate Placed(source: Text, parsed: Parsed, to: nat) {
    && parsed.In(source) && parsed.StartsAt(parsed.link.from)
    && parsed.link.from <= parsed.host.from < parsed.host.to <= to <= parsed.link.to
    && (parsed.rest.View? ==> parsed.rest.to == parsed.link.to)
  }

  lemma HostReadAgain(t: Tables, source: Text, parsed: Parsed, to: nat)
    requires Placed(source, parsed, to) && Stripped(source, parsed.link.from, to)
    ensures HostRead(t, source, parsed.link.from, parsed.host, to)
            <==> HostRead(t, parsed.link.Of(source), 0, parsed.Shifted(parsed.link.from).host, to - parsed.link.from)
  {
    StrippedAgain(source, parsed.link.from, to, parsed.link.to);
    CutInside(source, parsed.link.from, parsed.link.to, to);
    hide Grammar, Stripped;
  }

  lemma ProtocolReadAgain(source: Text, parsed: Parsed, to: nat)
    requires Placed(source, parsed, to)
    ensures ProtocolRead(source, parsed.link.from, parsed.protocol, to)
            <==> ProtocolRead(parsed.link.Of(source), 0, parsed.Shifted(parsed.link.from).protocol, to - parsed.link.from)
  {
    CutInside(source, parsed.link.from, parsed.link.to, to);
    hide ProtocolPart;
  }

  lemma EndsReadAgain(source: Text, parsed: Parsed, to: nat)
    requires Placed(source, parsed, to) && LinkEnd(source, parsed.host.to, to, parsed.link.to)
    requires RestRead(source, parsed.host.to, parsed.rest, to)
    ensures var link, again := parsed.link.Of(source), parsed.Shifted(parsed.link.from);
            && LinkEnd(link, again.host.to, to - parsed.link.from, again.link.to)
            && RestRead(link, again.host.to, again.rest, to - parsed.link.from)
  {
    LinkEndAgain(source, parsed.link.from, parsed.host.to, to, parsed.link.to);
    hide LinkEnd;
  }

  lemma ReadsFromParts(t: Tables, source: Text, parsed: Parsed, to: nat)
    requires parsed.link.View? && parsed.link.from == 0 && to <= |source|
    requires HostRead(t, source, 0, parsed.host, to) && ProtocolRead(source, 0, parsed.protocol, to)
    requires LinkEnd(source, parsed.host.to, to, parsed.link.to) && RestRead(source, parsed.host.to, parsed.rest, to)
    ensures Reads(t, source, parsed, to)
  {
    hide ProtocolRead, RestRead, LinkEnd;
  }

  lemma StrippedAgain(source: Text, cut: nat, to: nat, end: nat)
    requires Stripped(source, cut, to) && cut < to <= end <= |source|
    ensures Stripped(source[cut..end], 0, to - cut)
  {
  }

  lemma LinkEndAgain(source: Text, cut: nat, rest: nat, to: nat, end: nat)
    requires cut <= rest <= to && LinkEnd(source, rest, to, end)
    ensures LinkEnd(source[cut..end], rest - cut, to - cut, end - cut)
  {
    var link := source[cut..end];
    if end != to {
      DepthShift(source, cut, end, rest, end - 1);
      assert link[end - 1 - cut] == source[end - 1];
    }
  }

  /** Only "b" is a top level domain, and only ASCII digits are digits. */
  function SmallTables(): Tables {
    Tables((s: Text) => s == [0x62], (c: CodeUnit) => IsAsciiDigit(c))
  }

  const LONG_PORT: Text := [0x31, 0x32, 0x33, 0x34, 0x35, 0x78]

  /** A port of five digits with more behind it: a.b:12345x is read as a whole. */
  lemma LongPortIsAccepted()
    ensures var source := [0x61, DOT, 0x62] + ([0x3A] + LONG_PORT);
            exists parsed: Parsed :: Reads(SmallTables(), source, parsed, 10) && parsed.link == View(0, 10)
  {
    var host: Text, rest: Text := [0x61, DOT, 0x62], [0x3A] + LONG_PORT;
    var source := host + rest;
    SmallHost();
    assert rest[1..] == LONG_PORT && PortDigits(SmallTables(), LONG_PORT, 5);
    assert Rest(SmallTables(), rest);
    hide Host, Rest, PortStart;
    assert source[0..10] == source && source[0..3] == host && source[3..] == rest;
    assert Grammar(SmallTables(), source, 0, 3);
    assert Reads(SmallTables(), source, Parsed(Null, View(0, 3), View(3, 10), View(0, 10)), 10);
  }

  lemma SmallHost()
    ensures Host(SmallTables(), [0x61, DOT, 0x62])
  {
    var a: Text, b: Text := [0x61], [0x62];
    OneLabel(a);
    LabelsOfLabel(a, b);
    assert a + [DOT] + b == [0x61, DOT, 0x62];
    assert Labels([0x61, DOT, 0x62]) == [a] + [b];
    hide Ipv4, Labels;
  }

  // ---------------------------------------------------------------------------------------------
  // The parser
  // ---------------------------------------------------------------------------------------------

  method Strip(source: Text) returns (from: nat, to: nat)
    ensures Stripped(source, from, to)
  {
    from := 0;
    while from < |source| && IsIgnoredPrefix(source[from])
      invariant from <= |source| && forall k :: 0 <= k < from ==> IsIgnoredPrefix(source[k])
    {
      from := from + 1;
    }
    to := |source|;
    while from < to && IsIgnoredSuffix(source[to - 1])
      invariant from <= to <= |source| && forall k :: to <= k < |source| ==> IsIgnoredSuffix(source[k])
    {
      to := to - 1;
    }
  }

  method ReadProtocol(s: Text) returns (p: nat)
    ensures ProtocolPart(s, p)
  {
    p := 0;
    if |s| >= 4 + 3 + 1 && IsHttp(s[..4]) {
      assert s[..7][..4] == s[..4] == s[..8][..4] && s[..7][4..] == s[4..7] && s[..8][5..] == s[5..8];
      var at := 4;
      if IsLetter(s[4], 's', 'S') {
        at := 5;
      }
      if IsColonSlashSlash(s[at..at + 3]) {
        p := at + 3;
      }
    } else if |s| >= 8 {
      assert s[..7][..4] == s[..4] == s[..8][..4];
    }
  }

  method StartsWithPort(t: Tables, s: Text) returns (yes: bool)
    ensures yes <==> PortStart(t, s)
  {
    for i := 0 to Min(5, |s|)
      invariant PortDigits(t, s, i)
    {
      if i >= 1 && IsSeparator(s[i]) {
        return true;
      }
      if !t.isDigit(s[i]) {
        return false;
      }
    }
    assert PortDigits(t, s, Min(5, |s|));
    return true;
  }

  /** Non-empty labels only. */
  ghost predicate NonEmptyLabels(labels: seq<Text>) {
    forall k :: 0 <= k < |labels| ==> labels[k] != []
  }

  /** What follows `h` may follow a host, and what is in front may be one but for its last label. */
  ghost predicate HostShape(t: Tables, s: Text, h: nat) {
    && h <= |s| && Rest(t, s[h..])
    && (forall i :: 0 <= i < h ==> IsDomainChar(s[i]))
    && |Finished(s, h)| >= 1 && NonEmptyLabels(Finished(s, h))
    && (h == |s| ==> Current(s, h) != [])
  }

  ghost predicate HostThenRest(t: Tables, s: Text, h: nat) {
    h <= |s| && Host(t, s[..h]) && Rest(t, s[h..])
  }

  /** A host extends at least over all leading domain units, and never over another unit. */
  lemma HostSpan(t: Tables, s: Text, h: nat, i: nat)
    requires HostThenRest(t, s, h) && i <= |s| && forall k :: 0 <= k < i ==> IsDomainChar(s[k])
    ensures i <= h && (i < |s| && !IsDomainChar(s[i]) ==> h == i)
  {
  }

  /** The labels of a host in the words of the scanning loop. */
  lemma HostLabels(t: Tables, s: Text, h: nat)
    requires h <= |s| && Host(t, s[..h])
    ensures |Finished(s, h)| >= 1 && NonEmptyLabels(Finished(s, h)) && Current(s, h) != []
  {
  }

  /** What the host loop knows when it has come to `h`; `lastDotPos` is -1 before the first dot. */
  ghost predicate Scanned(s: Text, h: nat, lastDotPos: int, nDots: nat, lastWasDot: bool) {
    && h <= |s| && (forall k :: 0 <= k < h ==> IsDomainChar(s[k]))
    && |Finished(s, h)| == nDots
    && NonEmptyLabels(Finished(s, h))
    && -1 <= lastDotPos < h
    && (lastDotPos <= 0 <==> nDots == 0)
    && s[lastDotPos + 1..h] == Current(s, h)
    && (lastWasDot <==> lastDotPos + 1 == h)
  }

  lemma ScanDot(s: Text, h: nat, lastDotPos: int, nDots: nat)
    requires Scanned(s, h, lastDotPos, nDots, false) && h < |s| && IsDot(s[h])
    ensures Scanned(s, h + 1, h, nDots + 1, true)
  {
    AtDot(s, h);
    hide Finished, Current;
    assert s[h + 1..h + 1] == [];
  }

  lemma OneUnitMore(s: Text, i: nat, h: nat)
    requires i <= h < |s|
    ensures s[i..h + 1] == s[i..h] + [s[h]]
  {
  }

  lemma ScanOther(s: Text, h: nat, lastDotPos: int, nDots: nat, lastWasDot: bool)
    requires Scanned(s, h, lastDotPos, nDots, lastWasDot) && h < |s| && IsDomainChar(s[h]) && !IsDot(s[h])
    ensures Scanned(s, h + 1, lastDotPos, nDots, false)
  {
    AtUnit(s, h);
    hide Finished, Current;
    OneUnitMore(s, lastDotPos + 1, h);
  }

  /** Two dots in a row finish an empty label, which no host has. */
  lemma DoubleDot(t: Tables, s: Text, h: nat, lastDotPos: int, nDots: nat, g: nat)
    requires Scanned(s, h, lastDotPos, nDots, true) && h < |s| && IsDot(s[h])
    ensures !HostThenRest(t, s, g)
  {
    AtDot(s, h);
    if HostThenRest(t, s, g) {
      HostSpan(t, s, g, h + 1);
      HostLabels(t, s, g);
      ReadOn(s, h + 1, g);
    }
  }

  /** With a unit that ends the host, or nothing more to read, the host would have to end here. */
  lemma EndsHere(t: Tables, s: Text, h: nat, g: nat)
    requires h <= |s| && (forall k :: 0 <= k < h ==> IsDomainChar(s[k])) && (h < |s| ==> !IsDomainChar(s[h]))
    requires HostThenRest(t, s, g)
    ensures g == h && Rest(t, s[h..]) && |Finished(s, h)| >= 1 && Current(s, h) != []
    ensures h < |s| ==> s[h] == ':' as int || IsSeparator(s[h])
  {
  }

  /** What may follow a host, seen from its first unit. */
  lemma FollowsIs(t: Tables, s: Text, h: nat)
    requires h < |s|
    ensures Rest(t, s[h..]) <==> IsSeparator(s[h]) || (s[h] == ':' as int && PortStart(t, s[h + 1..]))
  {
    assert s[h..][1..] == s[h + 1..];
    hide PortStart;
  }

  /** A host may end at `h`; there are `nDots` dots in front, the last one at `lastDotPos`. */
  ghost predicate HostFound(t: Tables, s: Text, h: nat, lastDotPos: int, nDots: nat) {
    && HostShape(t, s, h) && nDots == |Finished(s, h)|
    && 0 <= lastDotPos < h && s[lastDotPos + 1..h] == Current(s, h)
  }

  /** A host that may end at `h` has its shape found there. */
  lemma ShapeFound(t: Tables, s: Text, h: nat, lastDotPos: int, nDots: nat, lastWasDot: bool)
    requires Scanned(s, h, lastDotPos, nDots, lastWasDot) && Rest(t, s[h..]) && lastDotPos > 0
    requires h == |s| ==> !lastWasDot
    ensures HostFound(t, s, h, lastDotPos, nDots)
  {
    hide Finished, Current, Rest;
  }

  /** Where no host may end, none does. */
  lemma NoHost(t: Tables, s: Text, h: nat, lastDotPos: int, nDots: nat, lastWasDot: bool)
    requires Scanned(s, h, lastDotPos, nDots, lastWasDot) && (h < |s| ==> !IsDomainChar(s[h]))
    requires lastDotPos <= 0 || !Rest(t, s[h..]) || (h == |s| && lastWasDot)
    ensures forall g :: !HostThenRest(t, s, g)
  {
    hide Finished, Current, Rest;
    forall g ensures !HostThenRest(t, s, g) {
      if HostThenRest(t, s, g) {
        EndsHere(t, s, h, g);
      }
    }
  }

  lemma ScanStart(s: Text)
    ensures Scanned(s, 0, -1, 0, true)
  {
    AtStart(s);
  }

  /** The host loop. */
  method ScanHost(t: Tables, s: Text) returns (found: bool, h: nat, lastDotPos: int, nDots: nat)
    ensures found ==> HostFound(t, s, h, lastDotPos, nDots)
    ensures !found ==> forall g :: !HostThenRest(t, s, g)
  {
    hide HostFound, HostThenRest, Rest, PortStart, Scanned;
    var lastWasDot := true;
    lastDotPos, nDots, h := -1, 0, 0;
    ScanStart(s);
    while h < |s|
      invariant h <= |s| && Scanned(s, h, lastDotPos, nDots, lastWasDot)
    {
      var currentChar := s[h];
      if currentChar == ':' as int || IsSeparator(currentChar) || !IsDomainChar(currentChar) {
        FollowsIs(t, s, h);
        found := IsSeparator(currentChar);
        if currentChar == ':' as int {
          found := StartsWithPort(t, s[h + 1..]);
        }
        found := found && lastDotPos > 0;
        if found {
          ShapeFound(t, s, h, lastDotPos, nDots, lastWasDot);
        } else {
          NoHost(t, s, h, lastDotPos, nDots, lastWasDot);
        }
        return;
      }
      if IsDot(currentChar) {
        if lastWasDot {
          forall g ensures !HostThenRest(t, s, g) {
            DoubleDot(t, s, h, lastDotPos, nDots, g);
          }
          return false, h, lastDotPos, nDots;
        }
        ScanDot(s, h, lastDotPos, nDots);
        lastDotPos, lastWasDot, nDots := h, true, nDots + 1;
      } else {
        ScanOther(s, h, lastDotPos, nDots, lastWasDot);
        lastWasDot := false;
      }
      h := h + 1;
    }
    assert Rest(t, s[h..]) by {
      NothingFollows(t, s);
    }
    found := !lastWasDot && lastDotPos > 0;
    if found {
      ShapeFound(t, s, h, lastDotPos, nDots, lastWasDot);
    } else {
      NoHost(t, s, h, lastDotPos, nDots, lastWasDot);
    }
  }

  lemma NothingFollows(t: Tables, s: Text)
    ensures Rest(t, s[|s|..])
  {
  }

  lemma {:induction false} NothingOpened(source: Text, from: nat, k: nat)
    requires from <= |source| && k <= |source|
    requires forall i :: from <= i < |source| ==> source[i] != '(' as int
    ensures Depth(source, from, k) == 0
    decreases k
  {
    if k > from {
      NothingOpened(source, from, k - 1);
    }
  }

  /** The rescan for parentheses, from the rest to the end of the source. */
  method ScanParentheses(source: Text, rest: nat, to: nat) returns (lastClose: nat)
    requires rest <= to <= |source|
    ensures LinkEnd(source, rest, to, Max(to, lastClose))
  {
    var nestingLevel: nat := 0;
    lastClose := to;
    for it := rest to |source|
      invariant nestingLevel == Depth(source, rest, it)
      invariant lastClose == to || ReturnsAt(source, rest, lastClose)
      invariant forall r: nat :: ReturnsAt(source, rest, r) && r <= it ==> r <= lastClose
      invariant lastClose <= |source|
    {
      if source[it] == '(' as int {
        nestingLevel := nestingLevel + 1;
        continue;
      }
      if nestingLevel != 0 && source[it] == ')' as int {
        nestingLevel := nestingLevel - 1;
        if nestingLevel == 0 {
          lastClose := it + 1;
        }
      }
    }
  }

  /** From the pieces found in the stripped text back to the grammar. */
  lemma GrammarFromShape(t: Tables, s: Text, p: nat, h: nat)
    requires t.Valid() && ProtocolPart(s, p) && HostShape(t, s[p..], h)
    requires Ipv4(s[p..][..h]) || t.isTld(Current(s[p..], h))
    ensures p + h <= |s| && Grammar(t, s, p, p + h)
  {
    var r := s[p..];
    var host := r[..h];
    CutTwice(s, p, p + h);
    AtEnd(r, h);
    hide Finished, Current;
    assert Labels(host)[|Finished(r, h)|] == Current(r, h);
    assert forall i :: 0 <= i < h ==> host[i] == r[i];
    assert Current(r, h) != [] by {
      if Ipv4(host) {
        assert Octet(Labels(host)[|Finished(r, h)|]);
      }
    }
    assert Host(t, host);
  }

  lemma GrammarToShape(t: Tables, s: Text, p: nat, q: nat, h: nat)
    requires ProtocolPart(s, p) && Grammar(t, s, q, h)
    ensures p == q && p <= h && HostThenRest(t, s[p..], h - p)
  {
    ProtocolUnique(s, p, q);
    GrammarSpan(t, s, q, h);
    CutTwice(s, p, h);
  }

  /** Protocol, host and rest of a stripped text: `s[..p]`, `s[p..h]` and `s[h..]`. */
  method MatchLink(t: Tables, s: Text) returns (accepted: bool, p: nat, h: nat)
    requires t.Valid()
    ensures accepted ==> Grammar(t, s, p, h)
    ensures !accepted ==> forall q, g :: !Grammar(t, s, q, g)
  {
    p := ReadProtocol(s);
    var remaining := s[p..];
    var found, length, lastDotPos, nDots := ScanHost(t, remaining);
    h := p + length;
    accepted := false;
    if found {
      var host := remaining[..length];
      var ip := IsValidIpv4(host);
      assert host[lastDotPos + 1..] == remaining[lastDotPos + 1..length];
      accepted := (nDots == 3 && ip) || t.isTld(host[lastDotPos + 1..]);
    }
    if accepted {
      GrammarFromShape(t, s, p, length);
    } else {
      forall q, g ensures !Grammar(t, s, q, g) {
        NoGrammar(t, s, p, found, length, q, g);
      }
    }
  }

  /** Without a split of the stripped text there is no reading ... */
  lemma NothingReads(t: Tables, source: Text, from: nat, to: nat)
    requires Stripped(source, from, to) && forall q, g :: !Grammar(t, source[from..to], q, g)
    ensures forall parsed, i :: !Reads(t, source, parsed, i)
  {
    hide Grammar, LinkEnd, ProtocolRead, RestRead;
    forall parsed: Parsed, i: nat ensures !Reads(t, source, parsed, i) {
      if Reads(t, source, parsed, i) {
        StrippedUnique(source, from, to, parsed.link.from, i);
      }
    }
  }

  /** ... and with one these views are. */
  lemma ViewsRead(t: Tables, source: Text, from: nat, to: nat, p: nat, h: nat, rest: View, link: View)
    requires Stripped(source, from, to) && Grammar(t, source[from..to], p, h)
    requires link.View? && link.from == from && LinkEnd(source, from + h, to, link.to)
    requires RestRead(source, from + h, rest, to)
    ensures p <= h
    ensures Reads(t, source, Parsed(if p == 0 then Null else View(from, from + p), View(from + p, from + h), rest, link), to)
  {
    GrammarSpan(t, source[from..to], p, h);
    hide Grammar, LinkEnd, ProtocolPart, RestRead;
  }

  /** The parser finds the reading of the source if there is one, and nothing otherwise. */
  method Parse(t: Tables, source: Text) returns (result: Option<Parsed>, ghost to: nat)
    requires t.Valid()
    ensures result.Some? ==> Reads(t, source, result.value, to)
    ensures result.None? ==> forall parsed, i :: !Reads(t, source, parsed, i)
  {
    var from, stripEnd := Strip(source);
    to := stripEnd;
    var accepted, p, h := MatchLink(t, source[from..stripEnd]);
    if !accepted {
      NothingReads(t, source, from, stripEnd);
      return None, to;
    }
    GrammarSpan(t, source[from..stripEnd], p, h);
    hide Grammar, LinkEnd, ProtocolPart, Reads;
    var protocol := Null;
    if p != 0 {
      protocol := View(from, from + p);
    }
    var host, rest := View(from + p, from + h), Null;
    if from + h != stripEnd {
      rest := View(from + h, stripEnd);
    }
    var link;
    link, rest := IncludeParentheses(source, View(from, stripEnd), rest);
    ViewsRead(t, source, from, stripEnd, p, h, rest, link);
    return Some(Parsed(protocol, host, rest, link)), to;
  }

  /** Looks for parentheses only if units were stripped from the end and there is a rest; both views grow. */
  method IncludeParentheses(source: Text, link: View, rest: View) returns (link': View, rest': View)
    requires link.View? && Stripped(source, link.from, link.to)
    requires rest.View? ==> rest.from < rest.to == link.to
    ensures link'.View? && link'.from == link.from
    ensures LinkEnd(source, if rest.View? then rest.from else link.to, link.to, link'.to)
    ensures if rest.Null? then rest' == Null
            else rest'.View? && rest'.from == rest.from && LinkEnd(source, rest.from, link.to, rest'.to)
  {
    link', rest' := link, rest;
    if link.to != |source| && !rest.Empty() {
      var lastClose := ScanParentheses(source, rest.from, link.to);
      link' := View(link.from, Max(link.to, lastClose));
      rest' := View(rest.from, Max(rest.to, lastClose));
    } else {
      NothingReturns(source, if rest.View? then rest.from else link.to, link.to);
    }
  }

  /** Without a host shape, or with one that is not accepted, the grammar does not apply. */
  lemma NoGrammar(t: Tables, s: Text, p: nat, found: bool, h: nat, q: nat, g: nat)
    requires ProtocolPart(s, p)
    requires !found ==> forall g :: !HostThenRest(t, s[p..], g)
    requires found ==> HostShape(t, s[p..], h) && !Ipv4(s[p..][..h]) && !t.isTld(Current(s[p..], h))
    ensures !Grammar(t, s, q, g)
  {
    if found {
      AtEnd(s[p..], h);
    }
    if Grammar(t, s, q, g) {
      GrammarToShape(t, s, p, q, g);
      if found {
        ShapeAgrees(t, s[p..], h, g - p);
      }
    }
  }

  /** Whatever host there is, it is the one whose shape was found. */
  lemma ShapeAgrees(t: Tables, s: Text, h: nat, g: nat)
    requires HostShape(t, s, h) && HostThenRest(t, s, g)
    ensures g == h
  {
  }

  /** Without a rest, or with nothing behind the stripped text, no parenthesis can extend the link. */
  lemma NothingReturns(source: Text, rest: nat, to: nat)
    requires rest <= to <= |source| && (to == |source| || rest == to)
    requires forall k :: to <= k < |source| ==> IsIgnoredSuffix(source[k])
    ensures LinkEnd(source, rest, to, to)
  {
    forall r | to < r <= |source| ensures !ReturnsAt(source, rest, r) {
      NothingOpened(source, rest, r - 1);
    }
  }
}
