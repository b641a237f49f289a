/** What a log-window check says about the log. */
module LogWindowTheorems {
  import opened Streams
  import opened Scoring
  import opened LogWindow
  import opened Timestamps

  // ---------- truncation ----------

  /** A line starts at `a` and shows no break within `cap` bytes; a last line of exactly `cap` bytes is
      excused when its ending is known. */
  ghost predicate LongLineAt(d: string, a: nat, cap: nat, rides: bool) {
    && (a == 0 || (a <= |d| && d[a - 1] == '\n')) && a + cap <= |d| && !(a + cap == |d| && rides)
    && forall k :: a <= k < a + cap ==> d[k] != '\n'
  }

  lemma {:induction false} TooLongExactly(d: string, start: nat, cap: nat, rides: bool)
    requires 0 < cap && start <= |d| && (start == 0 || d[start - 1] == '\n')
    ensures var at := LinesFrom(d, start, cap, rides).tooLong;
            && (at.Some? <==> exists a :: start <= a && LongLineAt(d, a, cap, rides))
            && (at.Some? ==> LongLineAt(d, at.value, cap, rides))
            && (at.Some? ==> forall a :: start <= a && LongLineAt(d, a, cap, rides) ==> at.value <= a)
    decreases |d| - start
  {
    var p := NextBreak(d, start);
    match CutLine(d, start, cap, rides)
    case NoMore =>
    case TooLong => assert LongLineAt(d, start, cap, rides);
    case Line(text, next) =>
      if p < |d| {
        TooLongExactly(d, next, cap, rides);
        forall a | start <= a && LongLineAt(d, a, cap, rides)
          ensures next <= a
        {
          assert d[p] == '\n';
        }
      } else {
        assert forall a :: start <= a && LongLineAt(d, a, cap, rides) ==> a == start;
      }
  }

  /** Truncated holds exactly when content is left past the budget, a line reaches the cap, or the
      reader's failure is seen. */
  lemma TruncatedExactly(c: LogWindowCheck, log: Log, cfg: Config, budget: nat, cap: nat, parse: string -> Option<int>)
    requires 0 < cap && IsCheck(c, log, cfg, budget, cap, parse)
    ensures c.truncated <==>
      || |log.text| > budget
      || log.EndsBroken(budget)
      || exists a :: LongLineAt(log.Delivered(budget), a, cap, log.EndRides(budget))
  {
    TooLongExactly(log.Delivered(budget), 0, cap, log.EndRides(budget));
  }

  /** The bytes scanned are all that the budget lets through, or those up to the cap of the first line
      that is too long. */
  lemma ScannedBytesSay(c: LogWindowCheck, log: Log, cfg: Config, budget: nat, cap: nat, parse: string -> Option<int>)
    requires 0 < cap && IsCheck(c, log, cfg, budget, cap, parse)
    ensures !c.truncated ==> c.scannedBytes == |log.text|
    ensures c.scannedBytes <= Min(|log.text|, budget)
    ensures (forall a :: !LongLineAt(log.Delivered(budget), a, cap, log.EndRides(budget))) ==>
      c.scannedBytes == Min(|log.text|, budget)
    ensures forall a: nat :: LongLineAt(log.Delivered(budget), a, cap, log.EndRides(budget)) ==>
      c.scannedBytes <= a + cap
    ensures (exists a :: LongLineAt(log.Delivered(budget), a, cap, log.EndRides(budget))) ==>
      LongLineAt(log.Delivered(budget), c.scannedBytes - cap, cap, log.EndRides(budget))
  {
    TooLongExactly(log.Delivered(budget), 0, cap, log.EndRides(budget));
  }

  /** A broken log passes as whole exactly when it breaks at the budget and reports that in a read of
      its own: that read is the probe, which ignores its error, unlike the antivirus scan's. */
  lemma FailureUnnoticedExactly(c: LogWindowCheck, log: Log, cfg: Config, budget: nat, cap: nat,
                                parse: string -> Option<int>)
    requires 0 < cap && IsCheck(c, log, cfg, budget, cap, parse) && log.broken && |log.text| <= budget
    requires forall a :: !LongLineAt(log.Delivered(budget), a, cap, log.EndRides(budget))
    ensures !c.truncated <==> |log.text| == budget && (!log.eager || budget == 0)
  {
    TruncatedExactly(c, log, cfg, budget, cap, parse);
  }

  /** Coverage is not withdrawn from a truncated scan: the timestamps delivered decide it alone. */
  lemma CoveredAndTruncatedExactly(c: LogWindowCheck, log: Log, cfg: Config, budget: nat, cap: nat,
                                   parse: string -> Option<int>)
    requires 0 < cap && IsCheck(c, log, cfg, budget, cap, parse)
    ensures c.covered && c.truncated <==>
      && Spans(Times(TokensOf(log, budget, cap), parse), cfg)
      && (|log.text| > budget || log.EndsBroken(budget)
          || exists a :: LongLineAt(log.Delivered(budget), a, cap, log.EndRides(budget)))
  {
    TruncatedExactly(c, log, cfg, budget, cap, parse);
  }

  // ---------- only the set of lines matters ----------

  lemma {:induction false} TimesMembers(tokens: seq<string>, parse: string -> Option<int>, t: int)
    ensures t in Times(tokens, parse) <==> exists k :: 0 <= k < |tokens| && parse(tokens[k]) == Some(t)
  {
    if tokens != [] {
      var n := |tokens| - 1;
      TimesMembers(tokens[..n], parse, t);
      if t in Times(tokens[..n], parse) {
        var k :| 0 <= k < n && parse(tokens[..n][k]) == Some(t);
        assert parse(tokens[k]) == Some(t);
      }
      if k :| 0 <= k < |tokens| && parse(tokens[k]) == Some(t) {
        if k < n {
          assert parse(tokens[..n][k]) == Some(t);
        }
      }
    }
  }

  lemma MoreLinesMoreTimes(tokens: seq<string>, tokens': seq<string>, parse: string -> Option<int>)
    requires forall l :: l in tokens ==> l in tokens'
    ensures forall t :: t in Times(tokens, parse) ==> t in Times(tokens', parse)
  {
    forall t | t in Times(tokens, parse)
      ensures t in Times(tokens', parse)
    {
      TimesMembers(tokens, parse, t);
      TimesMembers(tokens', parse, t);
      var k :| 0 <= k < |tokens| && parse(tokens[k]) == Some(t);
      assert tokens[k] in tokens';
      var m :| 0 <= m < |tokens'| && tokens'[m] == tokens[k];
    }
  }

  ghost function TokensOf(log: Log, budget: nat, cap: nat): seq<string>
    requires 0 < cap
  {
    LinesFrom(log.Delivered(budget), 0, cap, log.EndRides(budget)).tokens
  }

  /** More lines never take coverage back: the window seen only grows. */
  lemma CoverageOnlyGrows(c: LogWindowCheck, c': LogWindowCheck, log: Log, log': Log, cfg: Config,
                          budget: nat, budget': nat, cap: nat, parse: string -> Option<int>)
    requires 0 < cap && IsCheck(c, log, cfg, budget, cap, parse) && IsCheck(c', log', cfg, budget', cap, parse)
    requires forall l :: l in TokensOf(log, budget, cap) ==> l in TokensOf(log', budget', cap)
    ensures c.covered ==> c'.covered
    ensures c.detected ==> c'.detected && c'.firstSeen <= c.firstSeen && c.lastSeen <= c'.lastSeen
  {
    MoreLinesMoreTimes(TokensOf(log, budget, cap), TokensOf(log', budget', cap), parse);
  }

  // ---------- splitting undoes joining ----------

  /** The lines, each with its line break. */
  function Join(ls: seq<string>): string {
    if ls == [] then "" else ls[0] + "\n" + Join(ls[1..])
  }

  /** A line that survives the scan as it is. */
  predicate Plain(l: string, cap: nat) {
    |l| < cap && '\n' !in l && (l != "" ==> l[|l| - 1] != '\r')
  }

  lemma {:induction false} BreakAfter(d: string, i: nat, p: nat)
    requires i <= p < |d| && d[p] == '\n' && forall k :: i <= k < p ==> d[k] != '\n'
    ensures NextBreak(d, i) == p
    decreases p - i
  {
    if i < p {
      BreakAfter(d, i + 1, p);
    }
  }

  /** From `start` on, `d` is `t`. */
  ghost predicate Tail(d: string, start: nat, t: string) {
    start + |t| == |d| && SliceAt(t, d, start)
  }

  /** A line and how it ends: "\n", "\r\n", or at the end of the text "" or "\r". */
  datatype Row = Row(text: string, end: string)

  /** A text that has lost its line break and at most one carriage return before it. */
  predicate Stripped(row: Row) {
    '\n' !in row.text && (row.text != "" && row.text[|row.text| - 1] == '\r' ==> '\r' in row.end)
  }

  /** A line that ends in a break within the cap. */
  predicate Ended(row: Row, cap: nat) {
    Stripped(row) && (row.end == "\n" || row.end == "\r\n") && |row.text| + |row.end| <= cap
  }

  function Weave(rows: seq<Row>): string {
    if rows == [] then "" else rows[0].text + rows[0].end + Weave(rows[1..])
  }

  function Texts(rows: seq<Row>): seq<string> {
    if rows == [] then [] else [rows[0].text] + Texts(rows[1..])
  }

  lemma TailPrefix(d: string, start: nat, t: string, more: string)
    requires Tail(d, start, t + more)
    ensures SliceAt(t, d, start) && d[start..start + |t|] == t && Tail(d, start + |t|, more)
  {
    forall k | 0 <= k < |t|
      ensures d[start + k] == t[k]
    {
      assert (t + more)[k] == t[k];
    }
    forall k | 0 <= k < |more|
      ensures more[k] == d[start + |t| + k]
    {
      assert (t + more)[|t| + k] == d[start + (|t| + k)];
    }
  }

  lemma EndedLine(d: string, start: nat, row: Row, more: string, cap: nat, rides: bool)
    requires Tail(d, start, row.text + row.end + more) && Ended(row, cap)
    ensures CutLine(d, start, cap, rides) == Line(row.text, start + |row.text| + |row.end|)
    ensures Tail(d, start + |row.text| + |row.end|, more)
  {
    var t := row.text + row.end;
    TailPrefix(d, start, t, more);
    var p := start + |t| - 1;
    assert t[|t| - 1] == d[start + (|t| - 1)] == '\n';
    forall k | start <= k < p
      ensures d[k] != '\n'
    {
      assert t[k - start] == d[start + (k - start)];
    }
    BreakAfter(d, start, p);
    assert d[start..p] == t[..|t| - 1];
    if row.end == "\n" {
      assert t[..|t| - 1] == row.text;
    } else {
      assert t[..|t| - 1] == row.text + "\r";
      assert (row.text + "\r")[..|row.text|] == row.text;
    }
  }

  /** Splitting a text joined from plain lines gives the lines back. */
  lemma {:induction false} SplitJoin(d: string, start: nat, ls: seq<string>, cap: nat, rides: bool)
    requires 0 < cap && start <= |d| && Tail(d, start, Join(ls))
    requires forall l :: l in ls ==> Plain(l, cap)
    ensures LinesFrom(d, start, cap, rides) == Lines(ls, None)
    decreases |ls|
  {
    if ls != [] {
      var l, more := ls[0], ls[1..];
      var next := start + |l| + 1;
      assert Join(ls) == l + "\n" + Join(more) && Plain(l, cap);
      EndedLine(d, start, Row(l, "\n"), Join(more), cap, rides);
      assert forall k :: k in more ==> k in ls;
      SplitJoin(d, next, more, cap, rides);
      LineThenRest(d, start, l, next, more, cap, rides);
      assert ls == [l] + more;
    }
  }

  lemma LineThenRest(d: string, start: nat, l: string, next: nat, more: seq<string>, cap: nat, rides: bool)
    requires 0 < cap && start < next <= |d| && CutLine(d, start, cap, rides) == Line(l, next)
    requires LinesFrom(d, next, cap, rides) == Lines(more, None)
    ensures LinesFrom(d, start, cap, rides) == Lines([l] + more, None)
  {
  }

  /** `lines` with `texts` in front. */
  function Ahead(texts: seq<string>, lines: Lines): Lines {
    Lines(texts + lines.tokens, lines.tooLong)
  }

  lemma AheadTwice(a: seq<string>, b: seq<string>, lines: Lines)
    ensures Ahead(a, Ahead(b, lines)) == Ahead(a + b, lines) && Ahead([], lines) == lines
  {
    assert a + (b + lines.tokens) == (a + b) + lines.tokens;
    assert [] + lines.tokens == lines.tokens;
  }

  /** The lines that end in a break come out one by one, and then those of the rest. */
  lemma {:induction false} SplitRows(d: string, start: nat, rows: seq<Row>, rest: string, cap: nat, rides: bool)
    requires 0 < cap && start <= |d| && Tail(d, start, Weave(rows) + rest)
    requires forall k :: 0 <= k < |rows| ==> Ended(rows[k], cap)
    ensures var after := start + |Weave(rows)|;
            && after <= |d| && Tail(d, after, rest)
            && LinesFrom(d, start, cap, rides) == Ahead(Texts(rows), LinesFrom(d, after, cap, rides))
    decreases |rows|
  {
    if rows == [] {
      assert Weave(rows) + rest == rest;
      AheadTwice([], [], LinesFrom(d, start, cap, rides));
    } else {
      var row, more := rows[0], rows[1..];
      var next := start + |row.text| + |row.end|;
      assert Weave(rows) + rest == row.text + row.end + (Weave(more) + rest);
      EndedLine(d, start, row, Weave(more) + rest, cap, rides);
      SplitRows(d, next, more, rest, cap, rides);
      LineAhead(d, start, row.text, next, cap, rides);
      AheadTwice([row.text], Texts(more), LinesFrom(d, next + |Weave(more)|, cap, rides));
    }
  }

  lemma NoMoreLines(d: string, cap: nat, rides: bool)
    requires 0 < cap
    ensures LinesFrom(d, |d|, cap, rides) == Lines([], None)
  {
  }

  lemma AheadNothing(texts: seq<string>)
    ensures Ahead(texts, Lines([], None)) == Lines(texts, None)
  {
    assert texts + [] == texts;
  }

  lemma LineAhead(d: string, start: nat, text: string, next: nat, cap: nat, rides: bool)
    requires 0 < cap && start < next <= |d| && CutLine(d, start, cap, rides) == Line(text, next)
    ensures LinesFrom(d, start, cap, rides) == Ahead([text], LinesFrom(d, next, cap, rides))
  {
  }

  lemma LastLine(d: string, start: nat, row: Row, cap: nat, rides: bool)
    requires 0 < cap && start <= |d| && Tail(d, start, row.text + row.end) && Unended(row, cap, rides)
    ensures CutLine(d, start, cap, rides) == Line(row.text, |d|)
  {
    var t := row.text + row.end;
    assert d[start..] == t && t + "" == t;
    TailPrefix(d, start, t, "");
    assert NextBreak(d, start) == |d|;
    if row.end == "\r" {
      assert t[..|t| - 1] == row.text;
    } else {
      assert t == row.text;
    }
  }

  /** A last line without a break: not empty, and short enough for the scan to know that it ends. */
  predicate Unended(row: Row, cap: nat, rides: bool) {
    && Stripped(row) && (row.end == "" || row.end == "\r")
    && var n := |row.text| + |row.end|; 0 < n < cap || (n == cap && rides)
  }

  /** Any text that ends in a break gives back its lines, "\n" and "\r\n" alike. */
  lemma WholeLines(rows: seq<Row>, cap: nat, rides: bool)
    requires 0 < cap && forall k :: 0 <= k < |rows| ==> Ended(rows[k], cap)
    ensures LinesFrom(Weave(rows), 0, cap, rides) == Lines(Texts(rows), None)
  {
    var d := Weave(rows);
    assert d + "" == d;
    SplitRows(d, 0, rows, "", cap, rides);
    NoMoreLines(d, cap, rides);
    AheadNothing(Texts(rows));
  }

  /** A last line without a break is a line too. */
  lemma UnendedLine(rows: seq<Row>, last: Row, cap: nat, rides: bool)
    requires 0 < cap && (forall k :: 0 <= k < |rows| ==> Ended(rows[k], cap)) && Unended(last, cap, rides)
    ensures LinesFrom(Weave(rows) + (last.text + last.end), 0, cap, rides) == Lines(Texts(rows) + [last.text], None)
  {
    var d, n := Weave(rows) + (last.text + last.end), |Weave(rows)|;
    SplitRows(d, 0, rows, last.text + last.end, cap, rides);
    LastLine(d, n, last, cap, rides);
    LineAhead(d, n, last.text, |d|, cap, rides);
    NoMoreLines(d, cap, rides);
    AheadTwice(Texts(rows), [last.text], Lines([], None));
    AheadNothing(Texts(rows) + [last.text]);
  }

  /** A line that shows no break within the cap ends the scan where it starts. */
  lemma OverlongLine(rows: seq<Row>, rest: string, cap: nat, rides: bool)
    requires 0 < cap && forall k :: 0 <= k < |rows| ==> Ended(rows[k], cap)
    requires cap <= |rest| && '\n' !in rest[..cap] && (cap < |rest| || !rides)
    ensures LinesFrom(Weave(rows) + rest, 0, cap, rides) == Lines(Texts(rows), Some(|Weave(rows)|))
  {
    var d, n := Weave(rows) + rest, |Weave(rows)|;
    SplitRows(d, 0, rows, rest, cap, rides);
    forall k | n <= k < n + cap
      ensures d[k] != '\n'
    {
      assert d[k] == rest[..cap][k - n];
    }
    assert CutLine(d, n, cap, rides) == TooLong;
    assert Texts(rows) + [] == Texts(rows);
  }

  lemma {:induction false} JoinLength(ls: seq<string>, i: nat)
    requires i < |ls|
    ensures |Join(ls)| == |ls[i]| + 1 + |Join(ls[..i] + ls[i + 1..])|
  {
    if i == 0 {
      assert ls[..0] + ls[1..] == ls[1..];
    } else {
      JoinLength(ls[1..], i - 1);
      assert (ls[..i] + ls[i + 1..])[1..] == ls[1..][..i - 1] + ls[1..][i..];
    }
  }

  lemma WithoutOne(ls: seq<string>, i: nat)
    requires i < |ls|
    ensures multiset(ls[..i] + ls[i + 1..]) == multiset(ls) - multiset{ls[i]}
  {
    assert ls == ls[..i] + [ls[i]] + ls[i + 1..];
  }

  /** A permutation still is one once the same line is taken out of both. */
  lemma SameRest(ls: seq<string>, ls': seq<string>) returns (i: nat)
    requires multiset(ls) == multiset(ls') && ls != []
    ensures i < |ls'| && ls'[i] == ls[0] && multiset(ls[1..]) == multiset(ls'[..i] + ls'[i + 1..])
  {
    assert ls[0] in multiset(ls');
    i :| 0 <= i < |ls'| && ls'[i] == ls[0];
    WithoutOne(ls, 0);
    WithoutOne(ls', i);
    assert ls[..0] + ls[0 + 1..] == ls[1..];
  }

  lemma {:induction false} JoinLengthAnyOrder(ls: seq<string>, ls': seq<string>)
    requires multiset(ls) == multiset(ls')
    ensures |Join(ls)| == |Join(ls')|
    decreases |ls|
  {
    if ls != [] {
      var i := SameRest(ls, ls');
      JoinLengthAnyOrder(ls[1..], ls'[..i] + ls'[i + 1..]);
      JoinLength(ls', i);
    } else {
      assert |multiset(ls')| == 0;
    }
  }

  /** Rotated or interleaved logs: any order of the same lines gives the same check. */
  lemma LineOrderDoesNotMatter(c: LogWindowCheck, c': LogWindowCheck, ls: seq<string>, ls': seq<string>, eager: bool,
                               cfg: Config, budget: nat, cap: nat, parse: string -> Option<int>)
    requires 0 < cap && multiset(ls) == multiset(ls') && |Join(ls)| <= budget
    requires forall l :: l in ls ==> Plain(l, cap)
    requires IsCheck(c, Log(Join(ls), false, eager), cfg, budget, cap, parse)
    requires IsCheck(c', Log(Join(ls'), false, eager), cfg, budget, cap, parse)
    ensures c == c' && !c.truncated
  {
    JoinLengthAnyOrder(ls, ls');
    forall l
      ensures l in ls <==> l in ls'
    {
      assert l in ls <==> l in multiset(ls);
      assert l in ls' <==> l in multiset(ls');
    }
    var log, log' := Log(Join(ls), false, eager), Log(Join(ls'), false, eager);
    WholeJoined(ls, log, budget, cap);
    WholeJoined(ls', log', budget, cap);
    CoverageOnlyGrows(c, c', log, log', cfg, budget, budget, cap, parse);
    CoverageOnlyGrows(c', c, log', log, cfg, budget, budget, cap, parse);
  }

  lemma WholeJoined(ls: seq<string>, log: Log, budget: nat, cap: nat)
    requires 0 < cap && log.text == Join(ls) && |log.text| <= budget && forall l :: l in ls ==> Plain(l, cap)
    ensures log.Delivered(budget) == log.text
    ensures LinesFrom(log.Delivered(budget), 0, cap, log.EndRides(budget)) == Lines(ls, None)
  {
    var d := log.Delivered(budget);
    assert d == log.text;
    SplitJoin(d, 0, ls, cap, log.EndRides(budget));
  }

  // ---------- the check of a log that fits the limits ----------

  /** Some line has an instant no later than the bound. */
  ghost predicate SeenBy(tokens: seq<string>, parse: string -> Option<int>, bound: int) {
    exists l :: l in tokens && parse(l).Some? && parse(l).value <= bound
  }

  /** Some line has an instant no earlier than the bound. */
  ghost predicate SeenFrom(tokens: seq<string>, parse: string -> Option<int>, bound: int) {
    exists l :: l in tokens && parse(l).Some? && parse(l).value >= bound
  }

  /** Without a long line and within the budget, the lines decide everything: the window is covered when
      some instant is no later than a minute past its start and some no earlier than a minute before its
      end, and only a failing reader makes the check truncated. */
  lemma CheckFromLines(c: LogWindowCheck, log: Log, cfg: Config, budget: nat, cap: nat, parse: string -> Option<int>,
                       tokens: seq<string>)
    requires 0 < cap && IsCheck(c, log, cfg, budget, cap, parse) && |log.text| <= budget
    requires LinesFrom(log.text, 0, cap, log.EndRides(budget)) == Lines(tokens, None)
    ensures c.detected <==> exists l :: l in tokens && parse(l).Some?
    ensures c.covered <==>
      && SeenBy(tokens, parse, cfg.windowStart + 60_000_000_000)
      && SeenFrom(tokens, parse, cfg.windowEnd - 60_000_000_000)
    ensures c.truncated <==> log.broken && (|log.text| < budget || (log.eager && log.text != ""))
    ensures c.scannedBytes == |log.text|
  {
    assert log.Delivered(budget) == log.text;
    var times := Times(tokens, parse);
    forall l | l in tokens && parse(l).Some?
      ensures parse(l).value in times
    {
      var k :| 0 <= k < |tokens| && tokens[k] == l;
      TimesMembers(tokens, parse, parse(l).value);
    }
    forall t | t in times
      ensures exists l :: l in tokens && parse(l) == Some(t)
    {
      TimesMembers(tokens, parse, t);
      var k :| 0 <= k < |tokens| && parse(tokens[k]) == Some(t);
      assert tokens[k] in tokens;
    }
    assert times != [] ==> times[0] in times;
  }

  // ---------- two logs at the limits ----------

  function Blank(n: nat): (ls: seq<string>)
    ensures |ls| == n && forall l :: l in ls ==> l == ""
  {
    seq(n, _ => "")
  }

  lemma {:induction false} BlankLength(n: nat)
    ensures |Join(Blank(n))| == n
  {
    if n > 0 {
      BlankLength(n - 1);
      assert Blank(n)[1..] == Blank(n - 1);
    }
  }

  /** A failure that goes unnoticed at the limits in force: a log of 8 GiB of line breaks whose reader
      breaks right behind them, in a read of its own. */
  lemma FailureUnnoticed(cfg: Config, p: TimeParsers) returns (log: Log)
    ensures log.broken
    ensures !CheckOf(log, cfg, MAX_WINDOW_BYTES, MAX_LINE_BYTES, LineTime(TIMESTAMP, p)).truncated
  {
    log := UnnoticedAt(cfg, MAX_WINDOW_BYTES, MAX_LINE_BYTES, LineTime(TIMESTAMP, p));
  }

  lemma UnnoticedAt(cfg: Config, budget: nat, cap: nat, parse: string -> Option<int>) returns (log: Log)
    requires 0 < cap
    ensures log.broken && !CheckOf(log, cfg, budget, cap, parse).truncated
  {
    log := Log(Join(Blank(budget)), true, false);
    BlankLength(budget);
    WholeJoined(Blank(budget), log, budget, cap);
  }

  /** A line that is a timestamp and nothing else. */
  predicate IsStamp(line: string, t: int, p: TimeParsers) {
    && 0 < |line| <= 64 && p.field(line) == Some(t) && line[|line| - 1] != '\r'
    && ' ' !in line && '\t' !in line && '\n' !in line
  }

  lemma {:induction false} WholeField(line: string)
    requires ' ' !in line && '\t' !in line
    ensures FirstField(line) == line
  {
    if line != "" {
      WholeField(line[1..]);
    }
  }

  lemma StampTime(re: Re, line: string, t: int, p: TimeParsers)
    requires IsStamp(line, t, p)
    ensures LineTime(re, p)(line) == Some(t)
  {
    WholeField(line);
  }

  /** Coverage of a truncated scan at the limits in force: for any exercise and any two timestamps that
      reach its window, a log that has them in its first two lines and goes on past 8 GiB. */
  lemma CoveredThoughTruncated(cfg: Config, p: TimeParsers, early: string, t: int, late: string, u: int)
    returns (log: Log)
    requires IsStamp(early, t, p) && t <= cfg.windowStart + WINDOW_GRACE
    requires IsStamp(late, u, p) && u >= cfg.windowEnd - WINDOW_GRACE
    ensures var c := CheckOf(log, cfg, MAX_WINDOW_BYTES, MAX_LINE_BYTES, LineTime(TIMESTAMP, p));
            c.covered && c.truncated
  {
    StampTime(TIMESTAMP, early, t, p);
    StampTime(TIMESTAMP, late, u, p);
    log := CoveredAt(cfg, early, t, late, u, MAX_WINDOW_BYTES, MAX_LINE_BYTES, LineTime(TIMESTAMP, p));
  }

  lemma CoveredAt(cfg: Config, early: string, t: int, late: string, u: int, budget: nat, cap: nat,
                  parse: string -> Option<int>)
    returns (log: Log)
    requires Plain(early, cap) && parse(early) == Some(t) && t <= cfg.windowStart + WINDOW_GRACE
    requires Plain(late, cap) && parse(late) == Some(u) && u >= cfg.windowEnd - WINDOW_GRACE
    requires |early| + |late| + 2 <= budget && 0 < cap
    ensures var c := CheckOf(log, cfg, budget, cap, parse); c.covered && c.truncated
  {
    var n := budget - |early| - |late| - 2;
    var rest := [late] + Blank(n);
    var ls := [early] + rest;
    BlankLength(n);
    assert ls[1..] == rest && rest[1..] == Blank(n);
    log := Log(Join(ls) + "b", false, false);
    var d := log.Delivered(budget);
    assert d == Join(ls);
    SplitJoin(d, 0, ls, cap, false);
    assert ls[0] == early && ls[1] == late;
    TimesMembers(ls, parse, t);
    TimesMembers(ls, parse, u);
  }
}
