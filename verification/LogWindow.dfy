/** The log-window scan (scoring/checks.go): the earliest and latest timestamp of a decompressed
    log, read line by line under a byte budget and a line cap. */
module LogWindow {
  import opened Streams
  import opened Scoring
  import opened Timestamps

  const WINDOW_GRACE := 60_000_000_000    // one minute
  const MAX_WINDOW_BYTES: nat := 0x2_0000_0000    // 8 GiB
  const MAX_LINE_BYTES: nat := 0x10_0000    // 1 MiB

  /** A log as its gzip reader delivers it: `broken` when the reader fails after the text, `eager`
      when it reports the ending together with the last byte. */
  datatype Log = Log(text: string, broken: bool, eager: bool) {
    /** What the budget lets through. */
    function Delivered(budget: nat): string {
      text[..Min(|text|, budget)]
    }

    /** The reader's failure, not the budget, ends the scan. */
    predicate EndsBroken(budget: nat) {
      broken && (|text| < budget || (eager && 0 < |text| == budget))
    }

    /** The ending is known as soon as the last byte is. */
    predicate EndRides(budget: nat) {
      eager && 0 < |text| <= budget
    }
  }

  // ---------- lines ----------

  function DropCR(s: string): string {
    if s != "" && s[|s| - 1] == '\r' then s[..|s| - 1] else s
  }

  /** The first line break from `i` on, or the end. */
  function NextBreak(d: string, i: nat): (p: nat)
    requires i <= |d|
    ensures i <= p <= |d| && (p < |d| ==> d[p] == '\n') && forall k :: i <= k < p ==> d[k] != '\n'
    decreases |d| - i
  {
    if i == |d| || d[i] == '\n' then i else NextBreak(d, i + 1)
  }

  datatype Cut = Line(text: string, next: nat) | TooLong | NoMore

  /** bufio.Scanner with ScanLines: a line must show its break within `cap` bytes. The last, unbroken
      line may be `cap` bytes long only when the ending is already known. */
  function CutLine(d: string, start: nat, cap: nat, rides: bool): (cut: Cut)
    requires start <= |d|
    ensures cut.Line? ==> start < cut.next <= |d|
  {
    var p := NextBreak(d, start);
    if p < |d| && p - start < cap then Line(DropCR(d[start..p]), p + 1)
    else if p - start > cap || (p - start == cap && (p < |d| || !rides)) then TooLong
    else if start == |d| then NoMore
    else Line(DropCR(d[start..]), |d|)
  }

  /** The lines of a text: those delivered, and where the one that is too long starts, if any. */
  datatype Lines = Lines(tokens: seq<string>, tooLong: Option<nat>)

  function LinesFrom(d: string, start: nat, cap: nat, rides: bool): Lines
    requires start <= |d| && 0 < cap
    decreases |d| - start
  {
    match CutLine(d, start, cap, rides)
    case NoMore => Lines([], None)
    case TooLong => Lines([], Some(start))
    case Line(text, next) =>
      var rest := LinesFrom(d, next, cap, rides);
      Lines([text] + rest.tokens, rest.tooLong)
  }

  function Times(tokens: seq<string>, parse: string -> Option<int>): seq<int> {
    if tokens == [] then []
    else
      var init := Times(tokens[..|tokens| - 1], parse);
      match parse(tokens[|tokens| - 1])
      case None => init
      case Some(t) => init + [t]
  }

  // ---------- the check ----------

  ghost predicate Spans(times: seq<int>, cfg: Config) {
    && (exists t :: t in times && t <= cfg.windowStart + WINDOW_GRACE)
    && (exists t :: t in times && t >= cfg.windowEnd - WINDOW_GRACE)
  }

  ghost predicate IsEarliest(t: int, times: seq<int>) {
    t in times && forall u :: u in times ==> t <= u
  }

  ghost predicate IsLatest(t: int, times: seq<int>) {
    t in times && forall u :: u in times ==> u <= t
  }

  /** What the check of a readable log says. */
  ghost predicate IsCheck(c: LogWindowCheck, log: Log, cfg: Config, budget: nat, cap: nat, parse: string -> Option<int>)
    requires 0 < cap
  {
    var d := log.Delivered(budget);
    var lines := LinesFrom(d, 0, cap, log.EndRides(budget));
    var times := Times(lines.tokens, parse);
    && (c.detected <==> times != [])
    && (if c.detected then IsEarliest(c.firstSeen, times) && IsLatest(c.lastSeen, times)
        else c.firstSeen == 0 && c.lastSeen == 0)
    && (c.covered <==> Spans(times, cfg))
    && (c.truncated <==> lines.tooLong.Some? || log.EndsBroken(budget) || |log.text| > budget)
    && c.scannedBytes == (if lines.tooLong.Some? then lines.tooLong.value + cap else |d|)
  }

  lemma {:induction false} Extremes(times: seq<int>) returns (first: int, last: int)
    requires times != []
    ensures IsEarliest(first, times) && IsLatest(last, times)
  {
    var n := |times| - 1;
    first, last := times[n], times[n];
    if n > 0 {
      var init := times[..n];
      var a, b := Extremes(init);
      first, last := if a < first then a else first, if b > last then b else last;
      assert forall t :: t in times <==> t in init || t == times[n];
    }
  }

  /** The one check there is for a log. */
  ghost function CheckOf(log: Log, cfg: Config, budget: nat, cap: nat,
                         parse: string -> Option<int>): (c: LogWindowCheck)
    requires 0 < cap
    ensures IsCheck(c, log, cfg, budget, cap, parse)
  {
    assert exists c :: IsCheck(c, log, cfg, budget, cap, parse) by {
      var c := SomeCheck(log, cfg, budget, cap, parse);
    }
    var c :| IsCheck(c, log, cfg, budget, cap, parse);
    c
  }

  lemma SomeCheck(log: Log, cfg: Config, budget: nat, cap: nat, parse: string -> Option<int>)
    returns (c: LogWindowCheck)
    requires 0 < cap
    ensures IsCheck(c, log, cfg, budget, cap, parse)
  {
    var lines := LinesFrom(log.Delivered(budget), 0, cap, log.EndRides(budget));
    var times := Times(lines.tokens, parse);
    var first, last := 0, 0;
    if times != [] {
      first, last := Extremes(times);
    }
    c := LogWindowCheck(times != [], Spans(times, cfg),
                        lines.tooLong.Some? || log.EndsBroken(budget) || |log.text| > budget, first, last,
                        if lines.tooLong.Some? then lines.tooLong.value + cap else |log.Delivered(budget)|);
  }

  lemma CheckIsDetermined(c: LogWindowCheck, c': LogWindowCheck, log: Log, cfg: Config, budget: nat, cap: nat,
                          parse: string -> Option<int>)
    requires 0 < cap && IsCheck(c, log, cfg, budget, cap, parse) && IsCheck(c', log, cfg, budget, cap, parse)
    ensures c == c'
  {
  }

  /** What a line's timestamp is: the three passes with the plain regular expression. */
  ghost function LineTime(re: Re, p: TimeParsers): string -> Option<int> {
    line => ParsePlain(re, line, p)
  }

  /** Scanner.Scan: finds the break by looking at the bytes. */
  method NextLine(d: string, start: nat, cap: nat, rides: bool) returns (cut: Cut)
    requires start <= |d| && 0 < cap
    ensures cut == CutLine(d, start, cap, rides)
  {
    var p := start;
    while p < |d| && d[p] != '\n' && p - start < cap
      invariant start <= p <= |d| && p - start <= cap
      invariant NextBreak(d, start) == NextBreak(d, p)
    {
      p := p + 1;
    }
    if p < |d| && d[p] == '\n' && p - start < cap {
      return Line(DropCR(d[start..p]), p + 1);
    }
    if p - start == cap && (p < |d| || !rides) {
      return TooLong;
    }
    if start == |d| {
      return NoMore;
    }
    assert p == |d|;
    return Line(DropCR(d[start..]), |d|);
  }

  lemma TimesOneMore(tokens: seq<string>, text: string, parse: string -> Option<int>)
    ensures Times(tokens + [text], parse)
         == Times(tokens, parse) + if parse(text).Some? then [parse(text).value] else []
  {
    assert (tokens + [text])[..|tokens|] == tokens;
  }

  /** What the loop has seen so far. */
  ghost predicate Seen(times: seq<int>, detected: bool, first: int, last: int) {
    && (detected <==> times != [])
    && if detected then IsEarliest(first, times) && IsLatest(last, times) else first == 0 && last == 0
  }

  lemma SeenOneMore(times: seq<int>, detected: bool, first: int, last: int, t: int)
    requires Seen(times, detected, first, last)
    ensures Seen(times + [t], true, if !detected || t < first then t else first,
                 if !detected || t > last then t else last)
  {
    assert forall u :: u in times + [t] <==> u in times || u == t;
  }

  lemma SpansExactly(times: seq<int>, first: int, last: int, cfg: Config)
    requires Seen(times, true, first, last)
    ensures Spans(times, cfg) <==>
      !(first > cfg.windowStart + WINDOW_GRACE) && !(last < cfg.windowEnd - WINDOW_GRACE)
  {
  }

  /** Of `all` lines, `seen` were delivered and `rest` are to come. */
  ghost predicate Remaining(all: Lines, seen: seq<string>, rest: Lines) {
    all.tokens == seen + rest.tokens && all.tooLong == rest.tooLong
  }

  lemma RemainingOneLess(all: Lines, seen: seq<string>, rest: Lines, text: string, next: Lines)
    requires Remaining(all, seen, rest) && rest == Lines([text] + next.tokens, next.tooLong)
    ensures Remaining(all, seen + [text], next)
  {
    assert seen + ([text] + next.tokens) == (seen + [text]) + next.tokens;
  }

  /** One round of the loop: earliest and latest, not first and last line. */
  method TakeLine(line: string, ghost seen: seq<string>, detected: bool, first: int, last: int, ghost re: Re,
                  p: TimeParsers)
    returns (detected': bool, first': int, last': int)
    requires Spells(re) && Seen(Times(seen, LineTime(re, p)), detected, first, last)
    ensures Seen(Times(seen + [line], LineTime(re, p)), detected', first', last')
  {
    ghost var parse := LineTime(re, p);
    TimesOneMore(seen, line, parse);
    detected', first', last' := detected, first, last;
    var ts := ParseLeadingTimestamp(line, re, p);
    assert ts == parse(line);
    if ts.Some? {
      SeenOneMore(Times(seen, parse), detected, first, last, ts.value);
      if !detected || ts.value < first {
        first' := ts.value;
      }
      if !detected || ts.value > last {
        last' := ts.value;
      }
      detected' := true;
    }
  }

  /** The loop of scanLogWindow. */
  method ScanLines(d: string, cap: nat, rides: bool, ghost re: Re, p: TimeParsers)
    returns (detected: bool, first: int, last: int, tooLong: Option<nat>)
    requires 0 < cap && Spells(re)
    ensures var lines := LinesFrom(d, 0, cap, rides);
            tooLong == lines.tooLong && Seen(Times(lines.tokens, LineTime(re, p)), detected, first, last)
  {
    detected, first, last, tooLong := false, 0, 0, None;
    var start := 0;
    ghost var seen: seq<string> := [];
    ghost var all, parse := LinesFrom(d, 0, cap, rides), LineTime(re, p);
    while true
      invariant start <= |d| && tooLong == None
      invariant Remaining(all, seen, LinesFrom(d, start, cap, rides))
      invariant Seen(Times(seen, parse), detected, first, last)
      decreases |d| - start
    {
      var cut := NextLine(d, start, cap, rides);
      if cut.NoMore? {
        assert all.tokens == seen;
        break;
      }
      if cut.TooLong? {
        assert all.tokens == seen;
        tooLong := Some(start);
        break;
      }
      RemainingOneLess(all, seen, LinesFrom(d, start, cap, rides), cut.text, LinesFrom(d, cut.next, cap, rides));
      detected, first, last := TakeLine(cut.text, seen, detected, first, last, re, p);
      seen, start := seen + [cut.text], cut.next;
    }
  }

  /** scanLogWindow; `log` is None when the entry is not a gzip stream. */
  method ScanLogWindow(log: Option<Log>, cfg: Config, budget: nat, cap: nat, ghost re: Re, p: TimeParsers)
    returns (c: LogWindowCheck)
    requires 0 < cap && Spells(re)
    ensures log.None? ==> c == NO_WINDOW
    ensures log.Some? ==> c == CheckOf(log.value, cfg, budget, cap, LineTime(re, p))
  {
    if log.None? {
      return NO_WINDOW;
    }
    var l := log.value;
    var d := l.Delivered(budget);
    var detected, first, last, tooLong := ScanLines(d, cap, l.EndRides(budget), re, p);
    var scanned := if tooLong.Some? then tooLong.value + cap else |d|;
    // scanHitCap: with the budget spent one more byte is probed; a probe that fails counts as none
    var hitCap := scanned == budget && |l.text| > budget;
    var truncated := tooLong.Some? || l.EndsBroken(budget) || hitCap;
    ghost var parse := LineTime(re, p);
    if detected {
      SpansExactly(Times(LinesFrom(d, 0, cap, l.EndRides(budget)).tokens, parse), first, last, cfg);
      var covered := !(first > cfg.windowStart + WINDOW_GRACE) && !(last < cfg.windowEnd - WINDOW_GRACE);
      c := LogWindowCheck(true, covered, truncated, first, last, scanned);
    } else {
      c := LogWindowCheck(false, false, truncated, 0, 0, scanned);
    }
    CheckIsDetermined(c, CheckOf(l, cfg, budget, cap, parse), l, cfg, budget, cap, parse);
  }
}
