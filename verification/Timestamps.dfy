/** Finding a timestamp in a log line (scoring/checks.go): a byte scan in front of a regular
    expression. The expression is close to date-time in section 5.6 of RFC 3339, with colon-less
    offsets allowed too. */
module Timestamps {
  import opened Streams

  // ---------- regular expressions ----------

  datatype Class = Digit | Is(c: char) | OneOf(a: char, b: char)

  predicate In(cls: Class, c: char) {
    match cls
    case Digit => '0' <= c <= '9'
    case Is(d) => c == d
    case OneOf(a, b) => c == a || c == b
  }

  /** Many is one or more, Maybe is none or one. */
  datatype Re = One(cls: Class) | Many(cls: Class) | Maybe(re: Re) | Cat(first: Re, second: Re)
                | Alt(left: Re, right: Re)

  /** s[i..j] is in the language of `re`. */
  ghost predicate Matches(re: Re, s: string, i: nat, j: nat)
    requires i <= j <= |s|
    decreases re
  {
    match re
    case One(cls) => j == i + 1 && In(cls, s[i])
    case Many(cls) => i < j && forall k :: i <= k < j ==> In(cls, s[k])
    case Maybe(r) => j == i || Matches(r, s, i, j)
    case Cat(a, b) => exists k :: i <= k <= j && Matches(a, s, i, k) && Matches(b, s, k, j)
    case Alt(a, b) => Matches(a, s, i, j) || Matches(b, s, i, j)
  }

  lemma CatSplit(a: Re, b: Re, s: string, i: nat, j: nat) returns (k: nat)
    requires i <= j <= |s| && Matches(Cat(a, b), s, i, j)
    ensures i <= k <= j && Matches(a, s, i, k) && Matches(b, s, k, j)
  {
    k :| i <= k <= j && Matches(a, s, i, k) && Matches(b, s, k, j);
  }

  /** A match is a matter of the text alone: it moves with the text. */
  lemma {:induction false} MatchesMoves(re: Re, s: string, d: nat, i: nat, j: nat)
    requires d <= |s| && i <= j <= |s| - d
    ensures Matches(re, s[d..], i, j) <==> Matches(re, s, i + d, j + d)
    decreases re
  {
    match re
    case One(cls) =>
    case Many(cls) =>
      if Matches(re, s[d..], i, j) {
        forall k | i + d <= k < j + d
          ensures In(cls, s[k])
        {
          assert s[k] == s[d..][k - d];
        }
      }
    case Maybe(r) => MatchesMoves(r, s, d, i, j);
    case Alt(a, b) =>
      MatchesMoves(a, s, d, i, j);
      MatchesMoves(b, s, d, i, j);
    case Cat(a, b) =>
      var cut := s[d..];
      assert re == Cat(a, b) && |cut| == |s| - d;
      if Matches(re, cut, i, j) {
        var k := CatSplit(a, b, cut, i, j);
        MatchesMoves(a, s, d, i, k);
        MatchesMoves(b, s, d, k, j);
      }
      if Matches(re, s, i + d, j + d) {
        var k := CatSplit(a, b, s, i + d, j + d);
        MatchesMoves(a, s, d, i, k - d);
        MatchesMoves(b, s, d, k - d, j);
      }
  }

  /** And it does not look past its end. */
  lemma {:induction false} MatchesInPrefix(re: Re, s: string, n: nat, i: nat, j: nat)
    requires i <= j <= n <= |s|
    ensures Matches(re, s[..n], i, j) <==> Matches(re, s, i, j)
    decreases re
  {
    match re
    case One(cls) =>
    case Many(cls) => assert forall k :: i <= k < j ==> s[..n][k] == s[k];
    case Maybe(r) => MatchesInPrefix(r, s, n, i, j);
    case Alt(a, b) =>
      MatchesInPrefix(a, s, n, i, j);
      MatchesInPrefix(b, s, n, i, j);
    case Cat(a, b) =>
      assert re == Cat(a, b);
      if Matches(re, s[..n], i, j) {
        var k := CatSplit(a, b, s[..n], i, j);
        MatchesInPrefix(a, s, n, i, k);
        MatchesInPrefix(b, s, n, k, j);
      }
      if Matches(re, s, i, j) {
        var k := CatSplit(a, b, s, i, j);
        MatchesInPrefix(a, s, n, i, k);
        MatchesInPrefix(b, s, n, k, j);
      }
  }

  // ---------- timestampRe ----------

  /** The classes one after the other, then `rest`. */
  function Str(cs: seq<Class>, rest: Re): Re {
    if cs == [] then rest else Cat(One(cs[0]), Str(cs[1..], rest))
  }

  const DATE_TIME: seq<Class> :=
    [Digit, Digit, Digit, Digit, Is('-'), Digit, Digit, Is('-'), Digit, Digit, Is('T'),
     Digit, Digit, Is(':'), Digit, Digit, Is(':'), Digit, Digit]

  const FRACTION := Cat(One(Is('.')), Many(Digit))
  const MINUTES := Str([Digit], One(Digit))
  const OFFSET := Str([OneOf('+', '-'), Digit, Digit], Cat(Maybe(One(Is(':'))), MINUTES))
  const ZONE := Alt(One(Is('Z')), OFFSET)
  const TIMESTAMP_TAIL := Cat(Maybe(FRACTION), ZONE)

  /** \d{4}-\d{2}-\d{2}T\d{2}:\d{2}:\d{2}(?:\.\d+)?(?:Z|[+-]\d{2}:?\d{2}) */
  const TIMESTAMP := Str(DATE_TIME, TIMESTAMP_TAIL)

  ghost predicate Match(re: Re, s: string, i: int, j: int) {
    0 <= i <= j <= |s| && Matches(re, s, i, j)
  }

  predicate AllIn(cs: seq<Class>, s: string, i: nat) {
    i + |cs| <= |s| && forall k :: 0 <= k < |cs| ==> In(cs[k], s[i + k])
  }

  lemma AllInSplit(cs: seq<Class>, s: string, i: nat)
    requires cs != []
    ensures AllIn(cs, s, i) <==> i < |s| && In(cs[0], s[i]) && AllIn(cs[1..], s, i + 1)
  {
    var rest := cs[1..];
    if i < |s| && In(cs[0], s[i]) && AllIn(rest, s, i + 1) {
      forall k | 0 <= k < |cs|
        ensures In(cs[k], s[i + k])
      {
        if k > 0 {
          assert In(rest[k - 1], s[i + 1 + (k - 1)]);
        }
      }
    }
    if AllIn(cs, s, i) {
      forall k | 0 <= k < |rest|
        ensures In(rest[k], s[i + 1 + k])
      {
        assert In(cs[k + 1], s[i + (k + 1)]);
      }
    }
  }

  lemma {:induction false} StrMatches(cs: seq<Class>, rest: Re, s: string, i: nat, j: nat)
    requires i <= j <= |s|
    ensures Matches(Str(cs, rest), s, i, j) <==> i + |cs| <= j && AllIn(cs, s, i) && Matches(rest, s, i + |cs|, j)
    decreases |cs|
  {
    if cs != [] && i < j {
      AllInSplit(cs, s, i);
      StrMatches(cs[1..], rest, s, i + 1, j);
      assert Matches(One(cs[0]), s, i, i + 1) <==> In(cs[0], s[i]);
    }
  }

  /** No start has two ends. */
  ghost predicate Unambiguous(re: Re) {
    forall s, i, j, j' :: Match(re, s, i, j) && Match(re, s, i, j') ==> j == j'
  }

  // ---------- the prefilter ----------

  /** What indexTimestamp looks at: a year digit, both dashes, a month digit and the T. */
  predicate Candidate(s: string, p: int) {
    && 0 <= p && p + 10 < |s| && s[p + 10] == 'T'
    && '0' <= s[p + 6] <= '9' && s[p + 4] == '-' && s[p + 7] == '-' && '0' <= s[p] <= '9'
  }

  /** strings.IndexByte from `off`. */
  method IndexByte(s: string, off: nat, c: char) returns (j: int)
    requires off <= |s|
    ensures j == -1 ==> forall k :: off <= k < |s| ==> s[k] != c
    ensures j != -1 ==> 0 <= j < |s| - off && s[off + j] == c && forall k :: off <= k < off + j ==> s[k] != c
  {
    j := 0;
    while off + j < |s|
      invariant 0 <= j <= |s| - off
      invariant forall k :: off <= k < off + j ==> s[k] != c
    {
      if s[off + j] == c {
        return;
      }
      j := j + 1;
    }
    j := -1;
  }

  /** `r` is the first candidate, or -1 where there is none. */
  ghost predicate FirstCandidate(s: string, r: int) {
    (r == -1 || Candidate(s, r)) && forall p :: Candidate(s, p) ==> r != -1 && r <= p
  }

  /** indexTimestamp. */
  method IndexTimestamp(s: string) returns (r: int)
    ensures FirstCandidate(s, r)
  {
    var off := 0;
    while true
      invariant 0 <= off <= |s|
      invariant forall p :: Candidate(s, p) ==> off <= p + 10
      decreases |s| - off
    {
      var j := IndexByte(s, off, 'T');
      if j < 0 {
        return -1;
      }
      var i := off + j;
      if i >= 10 && '0' <= s[i - 4] <= '9' && s[i - 6] == '-' && s[i - 3] == '-' && '0' <= s[i - 10] <= '9' {
        assert Candidate(s, i - 10);
        return i - 10;
      }
      off := i + 1;
    }
  }

  /** Where a leftmost match lies. */
  datatype Span = Span(start: nat, end: nat)

  /** `m` is the leftmost match in `s`, or None where there is none. */
  ghost predicate Leftmost(re: Re, s: string, m: Option<Span>) {
    match m
    case None => forall i, j :: !Match(re, s, i, j)
    case Some(Span(start, end)) => Match(re, s, start, end) && forall i, j :: i < start ==> !Match(re, s, i, j)
  }

  lemma {:induction false} FirstFrom(re: Re, s: string, i: nat) returns (m: Option<Span>)
    requires i <= |s| && forall k, j :: k < i ==> !Match(re, s, k, j)
    ensures Leftmost(re, s, m)
    decreases |s| - i
  {
    if j: nat :| Match(re, s, i, j) {
      return Some(Span(i, j));
    }
    if i == |s| {
      return None;
    }
    m := FirstFrom(re, s, i + 1);
  }

  /** regexp.FindStringIndex. */
  ghost function Find(re: Re, s: string): (m: Option<Span>)
    ensures Leftmost(re, s, m)
  {
    assert exists m :: Leftmost(re, s, m) by {
      var m := FirstFrom(re, s, 0);
    }
    var m :| Leftmost(re, s, m);
    m
  }

  ghost predicate StartsAtCandidates(re: Re) {
    forall s, i, j :: Match(re, s, i, j) ==> Candidate(s, i)
  }

  function Shift(m: Option<Span>, d: nat): Option<Span> {
    match m
    case None => None
    case Some(Span(a, b)) => Some(Span(a + d, b + d))
  }

  lemma LeftmostMoves(re: Re, s: string, d: nat, m: Option<Span>)
    requires d <= |s| && Leftmost(re, s[d..], m)
    requires forall i, j :: Match(re, s, i, j) ==> d <= i
    ensures Leftmost(re, s, Shift(m, d))
  {
    var cut := s[d..];
    forall i: int, j: int | 0 <= i <= j <= |cut|
      ensures Match(re, cut, i, j) <==> Match(re, s, i + d, j + d)
    {
      MatchesMoves(re, s, d, i, j);
    }
    forall i, j | Match(re, s, i, j)
      ensures m.Some? && m.value.start + d <= i
    {
      assert Match(re, cut, i - d, j - d) <==> Match(re, s, (i - d) + d, (j - d) + d);
    }
  }

  /** For an expression whose matches all start at candidates, cutting the text at its first
      candidate changes neither whether there is a match nor which one is found. */
  lemma CutAtCandidate(re: Re, s: string, r: int)
    requires Unambiguous(re) && StartsAtCandidates(re)
    requires FirstCandidate(s, r)
    ensures r == -1 ==> Find(re, s) == None
    ensures r != -1 ==> Shift(Find(re, s[r..]), r) == Find(re, s)
  {
    var f := Find(re, s);
    if r != -1 {
      forall i, j | Match(re, s, i, j)
        ensures r <= i
      {
        assert Candidate(s, i);
      }
      var m := Shift(Find(re, s[r..]), r);
      LeftmostMoves(re, s, r, Find(re, s[r..]));
      assert m.Some? ==> f.Some? && m.value.start == f.value.start;
    }
  }

  // ---------- what a timestamp looks like ----------

  predicate DigitAt(s: string, k: nat) {
    k < |s| && '0' <= s[k] <= '9'
  }

  /** Where the run of digits at `k` ends. */
  function DigitsEnd(s: string, k: nat): (e: nat)
    requires k <= |s|
    ensures k <= e <= |s| && !DigitAt(s, e) && forall n :: k <= n < e ==> DigitAt(s, n)
    decreases |s| - k
  {
    if DigitAt(s, k) then DigitsEnd(s, k + 1) else k
  }

  /** Where the fraction of a second at `k` ends, `k` itself when there is none. */
  function FractionEnd(s: string, k: nat): (e: nat)
    requires k <= |s|
    ensures k <= e <= |s|
  {
    if k < |s| && s[k] == '.' && DigitAt(s, k + 1) then DigitsEnd(s, k + 1) else k
  }

  /** Where the zone at `k` ends: UTC, or an offset with or without a colon. */
  function ZoneEnd(s: string, k: nat): (e: Option<nat>)
    requires k <= |s|
    ensures e.Some? ==> k < e.value <= |s| && s[k] in "Z+-"
  {
    if k < |s| && s[k] == 'Z' then Some(k + 1)
    else if k < |s| && s[k] in "+-" && DigitAt(s, k + 1) && DigitAt(s, k + 2) then
      var m := if k + 3 < |s| && s[k + 3] == ':' then k + 4 else k + 3;
      if DigitAt(s, m) && DigitAt(s, m + 1) then Some(m + 2) else None
    else None
  }

  /** Where the timestamp that starts at `i` ends, if one does. */
  function TimestampEnd(s: string, i: nat): (e: Option<nat>)
    ensures e.Some? ==> i < e.value <= |s|
  {
    if AllIn(DATE_TIME, s, i) then ZoneEnd(s, FractionEnd(s, i + |DATE_TIME|)) else None
  }

  /** Two digits. */
  predicate TwoDigits(s: string, k: nat) {
    DigitAt(s, k) && DigitAt(s, k + 1)
  }

  /** Four digits, a dash, two digits, a dash, two digits, a T, and three times two digits with colons. */
  lemma DateTimeShape(cs: seq<Class>, s: string, i: nat)
    requires cs == DATE_TIME
    ensures AllIn(cs, s, i) <==>
      && i + 19 <= |s| && TwoDigits(s, i) && TwoDigits(s, i + 2) && s[i + 4] == '-' && TwoDigits(s, i + 5)
      && s[i + 7] == '-' && TwoDigits(s, i + 8) && s[i + 10] == 'T' && TwoDigits(s, i + 11) && s[i + 13] == ':'
      && TwoDigits(s, i + 14) && s[i + 16] == ':' && TwoDigits(s, i + 17)
  {
    if AllIn(cs, s, i) {
      assert In(cs[0], s[i + 0]) && In(cs[1], s[i + 1]) && In(cs[2], s[i + 2]) && In(cs[3], s[i + 3]);
      assert In(cs[4], s[i + 4]) && In(cs[5], s[i + 5]) && In(cs[6], s[i + 6]) && In(cs[7], s[i + 7]);
      assert In(cs[8], s[i + 8]) && In(cs[9], s[i + 9]) && In(cs[10], s[i + 10]) && In(cs[11], s[i + 11]);
      assert In(cs[12], s[i + 12]) && In(cs[13], s[i + 13]) && In(cs[14], s[i + 14]) && In(cs[15], s[i + 15]);
      assert In(cs[16], s[i + 16]) && In(cs[17], s[i + 17]) && In(cs[18], s[i + 18]);
    }
  }

  predicate AllDigits(t: string) {
    forall k :: 0 <= k < |t| ==> '0' <= t[k] <= '9'
  }

  /** Every spelling the layouts have is a timestamp to its end: a fraction of any length or none, then
      Z or an offset with or without a colon. */
  lemma AllSpellings(s: string, frac: string, sign: char, hours: string, colon: string, minutes: string)
    requires |s| >= 19 && AllIn(DATE_TIME, s, 0) && (sign == '+' || sign == '-') && (colon == "" || colon == ":")
    requires |hours| == |minutes| == 2 && AllDigits(hours) && AllDigits(minutes) && AllDigits(frac)
    ensures s[19..] == "Z" ==> TimestampEnd(s, 0) == Some(|s|)
    ensures s[19..] == "." + frac + "Z" && frac != "" ==> TimestampEnd(s, 0) == Some(|s|)
    ensures s[19..] == [sign] + hours + colon + minutes ==> TimestampEnd(s, 0) == Some(|s|)
    ensures s[19..] == "." + frac + ([sign] + hours + colon + minutes) && frac != "" ==> TimestampEnd(s, 0) == Some(|s|)
  {
    var zone := [sign] + hours + colon + minutes;
    if s[19..] == "Z" || s[19..] == zone {
      assert s[19] == s[19..][0] && FractionEnd(s, 19) == 19;
    }
    if s[19..] == "Z" {
      ZoneSpelled(s, 19, "Z", sign, hours, colon, minutes);
    } else if s[19..] == zone {
      ZoneSpelled(s, 19, zone, sign, hours, colon, minutes);
    } else if frac != "" && s[19..] == "." + frac + "Z" {
      FractionSpelled(s, frac, "Z");
      ZoneSpelled(s, 20 + |frac|, "Z", sign, hours, colon, minutes);
    } else if frac != "" && s[19..] == "." + frac + zone {
      FractionSpelled(s, frac, zone);
      ZoneSpelled(s, 20 + |frac|, zone, sign, hours, colon, minutes);
    }
  }

  lemma FractionSpelled(s: string, frac: string, zone: string)
    requires |s| >= 19 && s[19..] == "." + frac + zone && frac != "" && AllDigits(frac)
    requires zone != "" && !('0' <= zone[0] <= '9')
    ensures FractionEnd(s, 19) == 20 + |frac| && s[20 + |frac|..] == zone
  {
    var t := s[19..];
    assert t[0] == s[19] == '.' && t[1 + |frac|] == s[20 + |frac|] == zone[0];
    forall n | 20 <= n < 20 + |frac|
      ensures DigitAt(s, n)
    {
      assert t[n - 19] == frac[n - 20] == s[n];
    }
    DigitsEndAt(s, 20, 20 + |frac|);
    assert t[1 + |frac|..] == zone;
  }

  lemma {:induction false} DigitsEndAt(s: string, k: nat, e: nat)
    requires k <= e <= |s| && !DigitAt(s, e) && forall n :: k <= n < e ==> DigitAt(s, n)
    ensures DigitsEnd(s, k) == e
    decreases e - k
  {
    if k < e {
      DigitsEndAt(s, k + 1, e);
    }
  }

  lemma ZoneSpelled(s: string, k: nat, zone: string, sign: char, hours: string, colon: string, minutes: string)
    requires k <= |s| && s[k..] == zone && (zone == "Z" || zone == [sign] + hours + colon + minutes)
    requires (sign == '+' || sign == '-') && (colon == "" || colon == ":")
    requires |hours| == |minutes| == 2 && AllDigits(hours) && AllDigits(minutes)
    ensures ZoneEnd(s, k) == Some(|s|)
  {
    assert forall n :: 0 <= n < |zone| ==> s[k + n] == zone[n];
    if zone != "Z" {
      assert zone[1] == hours[0] && zone[2] == hours[1];
      assert zone[3 + |colon|] == minutes[0] && zone[4 + |colon|] == minutes[1];
      assert zone[0] == sign && (colon == ":" ==> zone[3] == ':');
    }
  }

  lemma OffsetEnd(minutes: Re, sign: seq<Class>, s: string, k: nat, j: nat)
    requires minutes == Str([Digit], One(Digit)) && sign == [OneOf('+', '-'), Digit, Digit] && k <= j <= |s|
    ensures Matches(Str(sign, Cat(Maybe(One(Is(':'))), minutes)), s, k, j) <==>
      k < |s| && s[k] != 'Z' && ZoneEnd(s, k) == Some(j)
  {
    var colon := One(Is(':'));
    var rest := Cat(Maybe(colon), minutes);
    StrMatches(sign, rest, s, k, j);
    assert AllIn(sign, s, k) <==> k < |s| && s[k] in "+-" && DigitAt(s, k + 1) && DigitAt(s, k + 2) by {
      assert sign[0] == OneOf('+', '-') && sign[1] == Digit && sign[2] == Digit;
      if AllIn(sign, s, k) {
        assert In(sign[0], s[k + 0]) && In(sign[1], s[k + 1]) && In(sign[2], s[k + 2]);
      }
    }
    if k + 3 <= j {
      MinutesEnd(minutes, s, k + 3, j);
      if k + 4 <= j {
        MinutesEnd(minutes, s, k + 4, j);
      }
      if Matches(rest, s, k + 3, j) {
        var m := CatSplit(Maybe(colon), minutes, s, k + 3, j);
        assert m == k + 3 || (m == k + 4 && s[k + 3] == ':');
      }
      assert Matches(Maybe(colon), s, k + 3, k + 3);
      if k + 4 <= j && s[k + 3] == ':' {
        assert Matches(Maybe(colon), s, k + 3, k + 4);
      }
    }
  }

  lemma MinutesEnd(minutes: Re, s: string, m: nat, j: nat)
    requires minutes == Str([Digit], One(Digit)) && m <= j <= |s|
    ensures Matches(minutes, s, m, j) <==> DigitAt(s, m) && DigitAt(s, m + 1) && j == m + 2
  {
    StrMatches([Digit], One(Digit), s, m, j);
    assert AllIn([Digit], s, m) <==> DigitAt(s, m) by {
      assert [Digit][0] == Digit;
      if AllIn([Digit], s, m) {
        assert In([Digit][0], s[m + 0]);
      }
    }
  }

  lemma ZoneMatches(minutes: Re, sign: seq<Class>, zone: Re, s: string, k: nat, j: nat)
    requires minutes == Str([Digit], One(Digit)) && sign == [OneOf('+', '-'), Digit, Digit] && k <= j <= |s|
    requires zone == Alt(One(Is('Z')), Str(sign, Cat(Maybe(One(Is(':'))), minutes)))
    ensures Matches(zone, s, k, j) <==> ZoneEnd(s, k) == Some(j)
  {
    OffsetEnd(minutes, sign, s, k, j);
    assert Matches(One(Is('Z')), s, k, j) <==> j == k + 1 && s[k] == 'Z';
  }

  lemma FractionMatches(frac: Re, s: string, i: nat, k: nat)
    requires frac == Cat(One(Is('.')), Many(Digit)) && i <= k <= |s|
    ensures Matches(frac, s, i, k) <==> i + 1 < k && s[i] == '.' && forall n :: i < n < k ==> DigitAt(s, n)
  {
    if Matches(frac, s, i, k) {
      var m := CatSplit(One(Is('.')), Many(Digit), s, i, k);
      assert forall n :: m <= n < k ==> In(Digit, s[n]);
    }
    if i + 1 < k && s[i] == '.' && forall n :: i < n < k ==> DigitAt(s, n) {
      forall n | i + 1 <= n < k
        ensures In(Digit, s[n])
      {
        assert DigitAt(s, n);
      }
      assert Matches(One(Is('.')), s, i, i + 1) && Matches(Many(Digit), s, i + 1, k);
    }
  }

  /** A zone never starts at a digit or a point, so only the whole fraction leaves one behind it. */
  lemma TailMatches(frac: Re, zone: Re, s: string, i: nat, j: nat)
    requires frac == Cat(One(Is('.')), Many(Digit)) && i <= j <= |s|
    requires forall k :: 0 <= k <= j ==> (Matches(zone, s, k, j) <==> ZoneEnd(s, k) == Some(j))
    ensures Matches(Cat(Maybe(frac), zone), s, i, j) <==> ZoneEnd(s, FractionEnd(s, i)) == Some(j)
  {
    var e := FractionEnd(s, i);
    if Matches(Cat(Maybe(frac), zone), s, i, j) {
      var k := CatSplit(Maybe(frac), zone, s, i, j);
      FractionMatches(frac, s, i, k);
      assert ZoneEnd(s, k) == Some(j) && s[k] in "Z+-";
      if k == i {
        assert e == i;
      } else {
        assert DigitAt(s, i + 1);
        assert k < e ==> DigitAt(s, k);
      }
    }
    if ZoneEnd(s, e) == Some(j) {
      FractionMatches(frac, s, i, e);
      assert Matches(Maybe(frac), s, i, e) && Matches(zone, s, e, j);
    }
  }

  lemma DateTimeMatches(cs: seq<Class>, tail: Re, s: string, i: nat, j: nat)
    requires i <= j <= |s| && cs == DATE_TIME
    requires forall k :: 0 <= k <= j ==> (Matches(tail, s, k, j) <==> ZoneEnd(s, FractionEnd(s, k)) == Some(j))
    ensures Matches(Str(cs, tail), s, i, j) <==> TimestampEnd(s, i) == Some(j)
  {
    StrMatches(cs, tail, s, i, j);
  }

  /** What the regular expression matches, spelled out: a date-time, an optional fraction of a second,
      and UTC or an offset with or without a colon, as long as the text allows. */
  lemma TimestampsExactly(s: string, i: nat, j: nat)
    ensures Match(TIMESTAMP, s, i, j) <==> TimestampEnd(s, i) == Some(j)
  {
    if i <= j <= |s| {
      forall k: nat | k <= j
        ensures Matches(ZONE, s, k, j) <==> ZoneEnd(s, k) == Some(j)
      {
        ZoneMatches(MINUTES, [OneOf('+', '-'), Digit, Digit], ZONE, s, k, j);
      }
      forall k: nat | k <= j
        ensures Matches(TIMESTAMP_TAIL, s, k, j) <==> ZoneEnd(s, FractionEnd(s, k)) == Some(j)
      {
        TailMatches(FRACTION, ZONE, s, k, j);
      }
      DateTimeMatches(DATE_TIME, TIMESTAMP_TAIL, s, i, j);
    }
  }

  /** `re` matches timestamps and nothing else. */
  ghost predicate Spells(re: Re) {
    forall s, i: nat, j: nat :: Match(re, s, i, j) <==> TimestampEnd(s, i) == Some(j)
  }

  /** A timestamp that starts at `i` ends in one place only, so whatever preference a matcher has
      between matches, it has nothing to choose from; and it starts at a candidate. */
  lemma TimestampFacts()
    ensures Spells(TIMESTAMP) && Unambiguous(TIMESTAMP) && StartsAtCandidates(TIMESTAMP)
  {
    forall s, i: nat, j: nat
      ensures Match(TIMESTAMP, s, i, j) <==> TimestampEnd(s, i) == Some(j)
    {
      TimestampsExactly(s, i, j);
    }
    SpelledFacts(TIMESTAMP);
  }

  lemma SpelledFacts(re: Re)
    requires Spells(re)
    ensures Unambiguous(re) && StartsAtCandidates(re)
  {
    forall s, i, j | Match(re, s, i, j)
      ensures TimestampEnd(s, i) == Some(j) && Candidate(s, i)
    {
      DateTimeShape(DATE_TIME, s, i);
    }
  }

  /** The prefilter refines the regular expression: without a candidate nothing matches, and from
      the first candidate on the leftmost match is that of the whole text. */
  lemma PrefilterRefinesRegexp(s: string, r: int)
    requires FirstCandidate(s, r)
    ensures r == -1 ==> Find(TIMESTAMP, s) == None
    ensures r != -1 ==> Shift(Find(TIMESTAMP, s[r..]), r) == Find(TIMESTAMP, s)
  {
    TimestampFacts();
    CutAtCandidate(TIMESTAMP, s, r);
  }

  // ---------- parseLeadingTimestamp ----------

  const SEARCH_BYTES := 256

  /** time.Parse over the four layouts, and the JSON fallback, as given functions. */
  datatype TimeParsers = TimeParsers(field: string -> Option<int>, json: string -> Option<int>)

  function FirstField(line: string): string {
    if line == "" || line[0] == ' ' || line[0] == '\t' then "" else [line[0]] + FirstField(line[1..])
  }

  function Head(line: string): string {
    if |line| > SEARCH_BYTES then line[..SEARCH_BYTES] else line
  }

  /** The text of the leftmost match, parsed. */
  ghost function ParseFound(re: Re, s: string, p: TimeParsers): Option<int> {
    match Find(re, s)
    case None => None
    case Some(Span(a, b)) => p.field(s[a..b])
  }

  /** parseLeadingTimestamp, `i` being what indexTimestamp returned for the line's head. */
  ghost function ParseLeading(re: Re, line: string, p: TimeParsers, i: int): Option<int>
    requires FirstCandidate(Head(line), i)
  {
    var field := FirstField(line);
    if 0 < |field| <= 64 && p.field(field).Some? then p.field(field)
    else if i >= 0 && ParseFound(re, Head(line)[i..], p).Some? then ParseFound(re, Head(line)[i..], p)
    else p.json(line)
  }

  /** The same three passes with the regular expression run on the whole head. */
  ghost function ParsePlain(re: Re, line: string, p: TimeParsers): Option<int> {
    var field := FirstField(line);
    if 0 < |field| <= 64 && p.field(field).Some? then p.field(field)
    else if ParseFound(re, Head(line), p).Some? then ParseFound(re, Head(line), p)
    else p.json(line)
  }

  lemma FoundAfterCut(re: Re, s: string, p: TimeParsers, r: int)
    requires Unambiguous(re) && StartsAtCandidates(re) && FirstCandidate(s, r)
    ensures r < 0 ==> ParseFound(re, s, p) == None
    ensures r >= 0 ==> ParseFound(re, s[r..], p) == ParseFound(re, s, p)
  {
    CutAtCandidate(re, s, r);
    if r >= 0 {
      var m := Find(re, s[r..]);
      if m.Some? {
        SliceOfSlice(s, r, |s|, m.value.start, m.value.end);
        assert s[r..] == s[r..|s|];
      }
    }
  }

  lemma CutChangesNothing(re: Re, line: string, p: TimeParsers, i: int)
    requires Unambiguous(re) && StartsAtCandidates(re) && FirstCandidate(Head(line), i)
    ensures ParseLeading(re, line, p, i) == ParsePlain(re, line, p)
  {
    FoundAfterCut(re, Head(line), p, i);
  }

  /** The byte scan never changes what a line's timestamp is. */
  lemma PrefilterChangesNothing(line: string, p: TimeParsers, i: int)
    requires FirstCandidate(Head(line), i)
    ensures ParseLeading(TIMESTAMP, line, p, i) == ParsePlain(TIMESTAMP, line, p)
  {
    TimestampFacts();
    CutChangesNothing(TIMESTAMP, line, p, i);
  }

  // ---------- what the three passes find ----------

  /** The first field is the text before the first blank or tab. */
  lemma {:induction false} FieldIs(field: string, rest: string)
    requires ' ' !in field && '\t' !in field && (rest != "" ==> rest[0] == ' ' || rest[0] == '\t')
    ensures FirstField(field + rest) == field
  {
    if field == "" {
      assert field + rest == rest;
    } else {
      assert (field + rest)[1..] == field[1..] + rest;
      FieldIs(field[1..], rest);
      assert [field[0]] + field[1..] == field;
    }
  }

  /** The first field of this line is no timestamp, or too long to be tried. */
  predicate FieldFails(line: string, p: TimeParsers) {
    var field := FirstField(line);
    field == "" || |field| > 64 || p.field(field).None?
  }

  /** A timestamp lies at [a, b) of the first 256 bytes of the line. */
  predicate StampInHead(line: string, a: nat, b: nat) {
    b <= 256 && TimestampEnd(line, a) == Some(b)
  }

  ghost predicate FirstStampInHead(line: string, a: nat, b: nat) {
    StampInHead(line, a, b) && forall i: nat, j: nat :: i < a ==> !StampInHead(line, i, j)
  }

  lemma HeadSearch(re: Re, line: string, a: nat, b: nat)
    requires Spells(re)
    ensures Match(re, Head(line), a, b) <==> StampInHead(line, a, b)
  {
    if a <= b <= |Head(line)| {
      MatchesInPrefix(re, line, |Head(line)|, a, b);
      assert line[..|Head(line)|] == Head(line);
    }
    assert Match(re, line, a, b) <==> TimestampEnd(line, a) == Some(b);
  }

  /** A line's instant: that of a first field that is a timestamp of at most 64 bytes; else that of the
      leftmost timestamp in the first 256 bytes, wherever a collector's prefix leaves it; else the JSON
      fallback's. */
  lemma LineTimeExactly(re: Re, line: string, p: TimeParsers, a: nat, b: nat)
    requires Spells(re)
    ensures !FieldFails(line, p) ==> ParsePlain(re, line, p) == p.field(FirstField(line))
    ensures FieldFails(line, p) && FirstStampInHead(line, a, b) ==>
      b <= |line| && ParsePlain(re, line, p) == if p.field(line[a..b]).Some? then p.field(line[a..b]) else p.json(line)
    ensures FieldFails(line, p) && (forall i: nat, j: nat :: !StampInHead(line, i, j)) ==>
      ParsePlain(re, line, p) == p.json(line)
  {
    forall i: nat, j: nat
      ensures Match(re, Head(line), i, j) <==> StampInHead(line, i, j)
    {
      HeadSearch(re, line, i, j);
    }
    if FirstStampInHead(line, a, b) {
      LeftmostInHead(re, line, a, b);
    }
  }

  lemma LeftmostInHead(re: Re, line: string, a: nat, b: nat)
    requires Spells(re) && FirstStampInHead(line, a, b)
    requires forall i: nat, j: nat :: Match(re, Head(line), i, j) <==> StampInHead(line, i, j)
    ensures Find(re, Head(line)) == Some(Span(a, b)) && b <= |line| && Head(line)[a..b] == line[a..b]
  {
    var head, m := Head(line), Find(re, Head(line));
    assert Match(re, head, a, b);
    assert m.Some? && Match(re, head, m.value.start, m.value.end) && StampInHead(line, m.value.start, m.value.end);
    assert m.value.start == a;
  }

  /** `m` is where the first timestamp lies, starts being tried in turn. */
  predicate FirstTimestamp(s: string, m: Option<Span>) {
    && (m.Some? ==> TimestampEnd(s, m.value.start) == Some(m.value.end))
    && forall k :: 0 <= k < (if m.Some? then m.value.start else |s| + 1) ==> TimestampEnd(s, k).None?
  }

  lemma FirstIsLeftmost(re: Re, s: string, m: Option<Span>)
    requires Spells(re) && FirstTimestamp(s, m)
    ensures m == Find(re, s)
  {
    var f := Find(re, s);
    if f.Some? {
      assert Match(re, s, f.value.start, f.value.end);
      assert m.Some? && m.value.start <= f.value.start;
    }
    if m.Some? {
      assert Match(re, s, m.value.start, m.value.end);
    }
  }

  /** timestampRe.FindString. */
  method FindTimestamp(s: string, ghost re: Re) returns (m: Option<Span>)
    requires Spells(re)
    ensures m == Find(re, s)
  {
    m := None;
    var i := 0;
    while i <= |s| && m.None?
      invariant 0 <= i <= |s| + 1
      invariant m.Some? ==> FirstTimestamp(s, m)
      invariant m.None? ==> forall k :: 0 <= k < i ==> TimestampEnd(s, k).None?
    {
      var e := TimestampEnd(s, i);
      if e.Some? {
        m := Some(Span(i, e.value));
      }
      i := i + 1;
    }
    FirstIsLeftmost(re, s, m);
  }

  /** parseLeadingTimestamp gives a line the instant that the three passes with the plain regular
      expression give it. */
  method ParseLeadingTimestamp(line: string, ghost re: Re, p: TimeParsers) returns (t: Option<int>)
    requires Spells(re)
    ensures t == ParsePlain(re, line, p)
  {
    var field := FirstField(line);
    if 0 < |field| <= 64 {
      t := p.field(field);
      if t.Some? {
        return;
      }
    }
    var head := Head(line);
    var i := IndexTimestamp(head);
    SpelledFacts(re);
    CutChangesNothing(re, line, p, i);
    if i >= 0 {
      var rest := head[i..];
      var m := FindTimestamp(rest, re);
      if m.Some? {
        t := p.field(rest[m.value.start..m.value.end]);
        if t.Some? {
          return;
        }
      }
    }
    t := p.json(line);
  }
}
