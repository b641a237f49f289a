/** The windowed antivirus scan (clamav/windowed.go).

    `ScanStream` cuts a stream into overlapping windows under a byte budget and hands each to a
    scanner it does not trust to read its input. `IsScan` says the same thing by stream offsets
    alone, turn by turn (`TakeTurn`) and without moving a byte; the method refines it, and the theorems
    are about `IsScan`. */
module Windowed {
  import opened Streams

  const DEFAULT_WINDOW_SIZE: nat := 0x4000_0000      // 1 GiB
  const DEFAULT_OVERLAP: nat := 0x10_0000            // 1 MiB
  const DEFAULT_SCAN_BUDGET: nat := 0x8_0000_0000    // 32 GiB

  datatype Verdict = Verdict(infected: bool, signature: string)
  const CLEAN := Verdict(false, "")

  datatype Coverage = Coverage(complete: bool, bytes: nat)

  datatype Error = NoError | ContextError | ScannerError

  datatype Outcome = Outcome(verdict: Verdict, coverage: Coverage, err: Error)

  datatype Reply = Answer(verdict: Verdict) | Refused

  /** One run of an arbitrary scanner. On its i-th call it asks for `want(i)` bytes of the window,
      or, for None, reads until the window ends; then it answers, knowing whether a read failed.
      Whatever a scanner makes of the bytes, its answers in one run are some function of the call. */
  datatype Scanner = Scanner(want: nat -> Option<nat>, reply: (nat, bool) -> Reply)

  // ---------- configuration ----------

  datatype WindowedScanner = WindowedScanner(windowSize: int, overlap: int, budget: int) {
    function WindowSize(): nat {
      if windowSize <= 0 then DEFAULT_WINDOW_SIZE else windowSize
    }

    function Overlap(): nat {
      var o := if overlap <= 0 then DEFAULT_OVERLAP else overlap;
      if o >= WindowSize() then WindowSize() / 2 else o
    }

    function Budget(): nat {
      if budget <= 0 then DEFAULT_SCAN_BUDGET else budget
    }

    function Layout(): (g: Geometry)
      ensures g.Valid()
    {
      Geometry(WindowSize(), Overlap())
    }
  }

  datatype Geometry = Geometry(windowSize: nat, overlap: nat) {
    ghost predicate Valid() {
      overlap < windowSize
    }

    /** The least number of bytes any window after the first repeats from the one before it. */
    function Seam(): nat
      requires Valid()
    {
      Min(overlap, windowSize - overlap)
    }
  }

  // ---------- specification by offsets ----------

  /** One call of the scanner: a window of `size` bytes, of which the first `carried` repeat the
      previous window and the rest start at stream offset `start`. `credited` when the call was
      answered and the window drained without error. */
  datatype Fed = Fed(start: nat, carried: nat, size: nat, reply: Reply, credited: bool) {
    function Begin(): int {
      start - carried
    }

    function End(): int {
      start + size - carried
    }

    /** The bytes the window reader held. */
    function Content(s: Stream): seq<byte>
      requires 0 <= Begin() && End() <= |s.data|
    {
      s.data[Begin()..End()]
    }
  }

  /** Where the loop stands before a round: `pos` bytes consumed, `left` of the budget, and the
      last `tail` bytes to be repeated. */
  datatype State = State(pos: int, left: int, tail: int) {
    ghost predicate Valid(g: Geometry, s: Stream) {
      g.Valid() && 0 <= tail <= pos <= |s.data| && tail <= g.overlap && 0 <= left
    }
  }

  function Partial(bytes: nat): Outcome {
    Outcome(CLEAN, Coverage(false, bytes), NoError)
  }

  function Errored(e: Error): Outcome {
    Outcome(CLEAN, Coverage(false, 0), e)
  }

  function Finished(s: Stream, pos: nat): Outcome {
    Outcome(CLEAN, Coverage(pos == |s.data| && !s.broken, pos), NoError)
  }

  function ReadCount(want: Option<nat>, len: nat): nat {
    if want.None? then len else Min(want.value, len)
  }

  predicate ReadsPast(want: Option<nat>, len: nat) {
    want.None? || want.value > len
  }

  /** What happens around one window: `rem` stream bytes are left and the limits allow `lim`. */
  datatype Meeting = Meeting(rem: nat, lim: nat, want: Option<nat>, len: nat, broken: bool, eager: bool) {
    // the source fails before the window is full
    predicate BreaksInside() { broken && rem < lim }
    // the failure rides on the window's last byte, which is not the peeked one
    predicate RidesLast() { broken && eager && 1 < rem <= lim }
    // the failure rode on the peeked byte
    predicate RodeHead() { broken && eager && rem == 1 }

    predicate ScannerSees() {
      (BreaksInside() && ReadsPast(want, len)) || (RidesLast() && ReadCount(want, len) == len)
    }

    predicate DrainFails() {
      BreaksInside() || (RidesLast() && ReadCount(want, len) < len)
    }
  }

  /** One round, peek included: the scanner call it makes, and whether a source failure had been
      recorded by the time the scanner returned. */
  datatype Round = Round(fed: Fed, srcErr: bool)

  function Gain(g: Geometry, s: Stream, st: State): (n: nat)
    requires st.Valid(g, s) && st.pos < |s.data| && 0 < st.left
    ensures 0 < n && n <= g.windowSize - st.tail && n <= st.left && n <= |s.data| - st.pos
  {
    Min(Min(g.windowSize - st.tail, st.left), |s.data| - st.pos)
  }

  function Meet(g: Geometry, sc: Scanner, s: Stream, i: nat, st: State): (m: Meeting)
    requires st.Valid(g, s) && st.pos < |s.data| && 0 < st.left
  {
    Meeting(|s.data| - st.pos, Min(g.windowSize - st.tail, st.left), sc.want(i),
            st.tail + Gain(g, s, st), s.broken, s.eager)
  }

  function PlayRound(g: Geometry, sc: Scanner, s: Stream, i: nat, st: State): Round
    requires st.Valid(g, s) && st.pos < |s.data| && 0 < st.left
  {
    var m := Meet(g, sc, s, i, st);
    var reply := sc.reply(i, m.ScannerSees());
    Round(Fed(st.pos, st.tail, m.len, reply, reply.Answer? && !m.DrainFails()), m.ScannerSees() || m.RodeHead())
  }

  /** How the loop goes on: the scan is over, after a last scanner call or none, or one more
      window was credited. */
  datatype Turn = Over(outcome: Outcome, last: Option<Fed>) | Next(fed: Fed)

  function TakeTurn(g: Geometry, sc: Scanner, ctx: nat -> bool, s: Stream, i: nat, st: State): Turn
    requires st.Valid(g, s)
  {
    if ctx(i) then Over(Errored(ContextError), None)
    else if st.left == 0 || st.pos == |s.data| then Over(Finished(s, st.pos), None)
    else
      var Round(fed, srcErr) := PlayRound(g, sc, s, i, st);
      if fed.reply.Refused? && !srcErr then Over(Errored(ScannerError), Some(fed))
      else if !fed.credited then Over(Partial(st.pos), Some(fed))
      else if fed.reply.verdict.infected then
        Over(Outcome(fed.reply.verdict, Coverage(false, fed.End()), NoError), Some(fed))
      else if fed.size < g.windowSize then Over(Finished(s, fed.End()), Some(fed))
      else Next(fed)
  }

  /** The state in which the loop starts round `j`. */
  function StateAt(g: Geometry, budget: nat, credited: seq<Fed>, j: nat): State
    requires j <= |credited|
  {
    if j == 0 then State(0, budget, 0)
    else
      var x := credited[j - 1];
      State(x.End(), budget - x.End(), Min(g.overlap, x.size - x.carried))
  }

  /** A whole scan: the windows it credited and went on from, and the turn that ended it. */
  datatype Report = Report(credited: seq<Fed>, end: Turn) {
    /** Every scanner call of the scan, in order. */
    function Fed(): seq<Fed>
      requires end.Over?
    {
      if end.last.Some? then credited + [end.last.value] else credited
    }
  }

  /** Round `j` credited the window it should have. */
  ghost predicate Credits(g: Geometry, budget: nat, sc: Scanner, ctx: nat -> bool, s: Stream,
                          credited: seq<Fed>, j: nat)
    requires j < |credited|
  {
    var st := StateAt(g, budget, credited, j);
    st.Valid(g, s) && TakeTurn(g, sc, ctx, s, j, st) == Next(credited[j])
  }

  ghost predicate CreditsAll(g: Geometry, budget: nat, sc: Scanner, ctx: nat -> bool, s: Stream, credited: seq<Fed>) {
    forall j :: 0 <= j < |credited| ==> Credits(g, budget, sc, ctx, s, credited, j)
  }

  ghost predicate IsScan(w: WindowedScanner, sc: Scanner, ctx: nat -> bool, s: Stream, r: Report) {
    var g, n := w.Layout(), |r.credited|;
    var st := StateAt(g, w.Budget(), r.credited, n);
    && CreditsAll(g, w.Budget(), sc, ctx, s, r.credited)
    && r.end.Over? && st.Valid(g, s) && TakeTurn(g, sc, ctx, s, n, st) == r.end
  }

  lemma CreditsOneMore(g: Geometry, budget: nat, sc: Scanner, ctx: nat -> bool, s: Stream,
                       credited: seq<Fed>, x: Fed, st: State)
    requires CreditsAll(g, budget, sc, ctx, s, credited)
    requires StateAt(g, budget, credited, |credited|) == st && st.Valid(g, s)
    requires TakeTurn(g, sc, ctx, s, |credited|, st) == Next(x)
    ensures CreditsAll(g, budget, sc, ctx, s, credited + [x])
    ensures StateAt(g, budget, credited + [x], |credited| + 1)
         == State(x.End(), budget - x.End(), Min(g.overlap, x.size - x.carried))
  {
    var more := credited + [x];
    forall j | 0 <= j < |more|
      ensures Credits(g, budget, sc, ctx, s, more, j)
    {
      assert StateAt(g, budget, more, j) == StateAt(g, budget, credited, j);
      if j < |credited| {
        assert Credits(g, budget, sc, ctx, s, credited, j) && more[j] == credited[j];
      }
    }
  }

  // ---------- implementation ----------

  /** tailBuffer: the last `size` bytes written to it. */
  class TailBuffer {
    const size: nat
    var buf: seq<byte>
    ghost var written: seq<byte>

    ghost predicate Valid()
      reads this
    {
      |buf| == Min(size, |written|) && SliceAt(buf, written, |written| - |buf|)
    }

    constructor (size: nat)
      ensures Valid() && this.size == size && written == []
    {
      this.size := size;
      buf, written := [], [];
    }

    method Write(p: seq<byte>)
      requires Valid()
      modifies this
      ensures Valid() && written == old(written) + p
    {
      written := written + p;
      if |p| >= size {
        buf := p[|p| - size..];
        return;
      }
      if |buf| + |p| > size {
        var drop := |buf| + |p| - size;
        buf := buf[drop..];
      }
      buf := buf + p;
    }
  }

  /** The stream behind an errRecorder (`err` remembers that a read failed) and the budget's
      LimitedReader (`n` bytes may still be read). How many bytes a read returns is up to the
      stream. */
  class Source {
    const s: Stream
    var pos: nat
    var err: bool
    var n: nat

    ghost predicate Valid()
      reads this
    {
      pos <= |s.data| && (err ==> s.broken && pos == |s.data|)
    }

    constructor (s: Stream, budget: nat)
      ensures Valid() && this.s == s && pos == 0 && !err && n == budget
    {
      this.s := s;
      pos, err, n := 0, false, budget;
    }

    method Read(max: nat) returns (chunk: seq<byte>, st: Status)
      requires Valid() && 0 < max
      modifies this`pos, this`err
      ensures Valid()
      ensures pos == old(pos) + |chunk| && |chunk| <= max && SliceAt(chunk, s.data, old(pos))
      ensures old(pos) < |s.data| ==> chunk != []
      ensures st == (if pos == |s.data| && (s.eager || chunk == [])
                     then if s.broken then Failed else Eof
                     else More)
      ensures err == (old(err) || st == Failed)
    {
      var k: nat := 0;
      if pos < |s.data| {
        k :| 0 < k <= max && k <= |s.data| - pos by { assert 0 < 1 <= max && 1 <= |s.data| - pos; }
      }
      chunk := s.data[pos..pos + k];
      pos := pos + k;
      st := if pos < |s.data| || (0 < k && !s.eager) then More
            else if s.broken then Failed else Eof;
      err := err || st == Failed;
    }

    method ReadBounded(max: nat) returns (chunk: seq<byte>, st: Status)
      requires Valid() && 0 < max
      modifies this
      ensures Valid()
      ensures pos == old(pos) + |chunk| && n == old(n) - |chunk| && |chunk| <= max
      ensures SliceAt(chunk, s.data, old(pos))
      ensures old(n) == 0 ==> chunk == [] && st == Eof
      ensures 0 < old(n) ==> (old(pos) < |s.data| ==> chunk != [])
      ensures 0 < old(n) ==>
        st == (if pos == |s.data| && (s.eager || chunk == [])
               then if s.broken then Failed else Eof
               else More)
      ensures err == (old(err) || st == Failed)
    {
      if n == 0 {
        return [], Eof;
      }
      chunk, st := Read(Min(max, n));
      n := n - |chunk|;
    }

    /** ReadFull of one byte: empty when the budget or the stream has ended. */
    method Peek() returns (head: seq<byte>)
      requires Valid()
      modifies this
      ensures Valid()
      ensures |head| == if old(n) == 0 || old(pos) == |s.data| then 0 else 1
      ensures pos == old(pos) + |head| && n == old(n) - |head| && SliceAt(head, s.data, old(pos))
      ensures err == (old(err) || (old(n) > 0 && s.broken && pos == |s.data| && (s.eager || head == [])))
    {
      var st;
      head, st := ReadBounded(1);
    }

    /** complete, and no read failed: the stream ended by itself. With the budget spent one more
        byte is probed. */
    method Ended() returns (done: bool)
      requires Valid()
      requires n > 0 && !err ==> pos == |s.data| && !s.broken
      modifies this
      ensures done == (old(pos) == |s.data| && !s.broken)
    {
      if err {
        return false;
      }
      if n > 0 {
        return true;
      }
      var probe, st := Read(1);
      return probe == [] && st != Failed;
    }
  }

  /** The readers of one round: the carried tail, then the peeked byte and the fresh bytes teed
      into `ring`. The tail being the bytes just before the peeked one, the window is a stretch of
      the stream: it is at offset `off` of [.., end), and the peeked byte is at `headPos`. */
  class Window {
    const src: Source
    const ring: TailBuffer
    var tailLeft: seq<byte>
    var headLeft: seq<byte>
    var freshN: nat
    ghost var off: nat
    ghost const headPos: nat
    ghost const end: nat

    ghost predicate Valid()
      reads this, src, ring
    {
      && src.Valid() && ring.Valid()
      && off <= end <= |src.s.data| && headPos < end
      && (if off <= headPos then
            |tailLeft| == headPos - off && SliceAt(tailLeft, src.s.data, off) && headLeft == [src.s.data[headPos]]
              && src.pos == headPos + 1
          else
            tailLeft == [] && headLeft == [] && src.pos == off)
      && end - src.pos == Min(Min(freshN, src.n), |src.s.data| - src.pos)
      && |ring.written| == (if off <= headPos then 0 else off - headPos)
      && SliceAt(ring.written, src.s.data, headPos)
    }

    ghost predicate BreaksInside()
      reads this, src
    {
      src.s.broken && end == |src.s.data| && end - src.pos < Min(freshN, src.n)
    }

    ghost predicate RidesLast()
      reads this, src
    {
      src.s.broken && src.s.eager && end == |src.s.data| && src.pos < end
    }

    constructor (src: Source, g: Geometry, tail: seq<byte>, head: byte)
      requires src.Valid() && g.Valid() && |tail| <= g.overlap && |tail| < src.pos
      requires SliceAt(tail, src.s.data, src.pos - 1 - |tail|) && head == src.s.data[src.pos - 1]
      ensures Valid() && fresh(ring) && this.src == src && ring.size == g.overlap
      ensures off == src.pos - 1 - |tail| && headPos == src.pos - 1
      ensures end == headPos + Gain(g, src.s, State(headPos, src.n + 1, |tail|))
      ensures freshN == g.windowSize - |tail| - 1
    {
      this.src := src;
      tailLeft, headLeft, freshN := tail, [head], g.windowSize - |tail| - 1;
      off, headPos := src.pos - 1 - |tail|, src.pos - 1;
      end := src.pos - 1 + Gain(g, src.s, State(src.pos - 1, src.n + 1, |tail|));
      ring := new TailBuffer(g.overlap);
    }

    method Read(max: nat) returns (chunk: seq<byte>, st: Status)
      requires Valid() && 0 < max
      modifies this, src, ring
      ensures Valid() && |chunk| <= max
      ensures off == old(off) + |chunk| && SliceAt(chunk, src.s.data, old(off))
      ensures src.pos + src.n == old(src.pos + src.n) && src.pos + freshN == old(src.pos + freshN)
      ensures st == More ==> chunk != []
      ensures st != More ==> off == end
      ensures st == Failed <==>
        (old(BreaksInside()) && old(off) == end) || (old(RidesLast()) && off == end)
      ensures st == Eof ==> !old(BreaksInside())
      ensures src.err == (old(src.err) || st == Failed)
    {
      if tailLeft != [] {
        var k := Min(max, |tailLeft|);
        chunk, tailLeft := tailLeft[..k], tailLeft[k..];
        off := off + k;
        return chunk, More;
      }
      if headLeft != [] {
        chunk, headLeft := headLeft, [];
        off := off + 1;
        ring.Write(chunk);
        return chunk, More;
      }
      if freshN == 0 {
        return [], Eof;
      }
      chunk, st := src.ReadBounded(Min(max, freshN));
      freshN := freshN - |chunk|;
      off := off + |chunk|;
      ring.Write(chunk);
    }

    /** Reads `want` bytes, or to the end of the window; `failed` when a read reported an error. */
    method Pull(want: Option<nat>) returns (got: seq<byte>, failed: bool)
      requires Valid()
      modifies this, src, ring
      ensures Valid()
      ensures off == old(off) + |got| && |got| == ReadCount(want, end - old(off))
      ensures SliceAt(got, src.s.data, old(off))
      ensures src.pos + src.n == old(src.pos + src.n) && src.pos + freshN == old(src.pos + freshN)
      ensures failed <==>
        (old(BreaksInside()) && ReadsPast(want, end - old(off))) || (old(RidesLast()) && off == end)
      ensures src.err == (old(src.err) || failed)
    {
      got, failed := [], false;
      while want.None? || |got| < want.value
        invariant Valid() && !failed
        invariant off == old(off) + |got| && SliceAt(got, src.s.data, old(off))
        invariant want.Some? ==> |got| <= want.value
        invariant src.pos + src.n == old(src.pos + src.n) && src.pos + freshN == old(src.pos + freshN)
        invariant RidesLast() == old(RidesLast()) && src.err == old(src.err)
        decreases end - off
      {
        var max: nat :| 0 < max && (want.Some? ==> max <= want.value - |got|)
          by { assert want.Some? ==> 1 <= want.value - |got|; assert 0 < 1; }
        var chunk, st := Read(max);
        got := got + chunk;
        if st != More {
          failed := st == Failed;
          break;
        }
      }
    }
  }

  /** One scanner call and the drain after it. The drain reads only from the source, so src.err is
      set whenever it fails. */
  method Serve(window: Window, sc: Scanner, i: nat) returns (reply: Reply, answered: bool)
    requires window.Valid()
    modifies window, window.src, window.ring
    ensures window.Valid()
    ensures var len := window.end - old(window.off);
            var k := ReadCount(sc.want(i), len);
            var saw := (old(window.BreaksInside()) && ReadsPast(sc.want(i), len))
                       || (old(window.RidesLast()) && k == len);
            && reply == sc.reply(i, saw)
            && (reply.Refused? ==> window.src.err == (old(window.src.err) || saw))
            && answered == (reply.Answer? && !old(window.BreaksInside()) && !(old(window.RidesLast()) && k < len))
    ensures answered ==> window.off == window.end
    ensures window.src.pos + window.src.n == old(window.src.pos + window.src.n)
    ensures window.src.pos + window.freshN == old(window.src.pos + window.freshN)
  {
    var got, sawError := window.Pull(sc.want(i));
    reply := sc.reply(i, sawError);
    answered := false;
    if reply.Answer? {
      var drained, failed := window.Pull(None);
      answered := !failed;
    }
  }

  /** Everything between the peek and the credit of one window. */
  method PlayWindow(src: Source, g: Geometry, sc: Scanner, i: nat, tail: seq<byte>, head: byte)
    returns (reply: Reply, answered: bool, freshN: nat, next: seq<byte>, ghost content: seq<byte>)
    requires src.Valid() && g.Valid() && |tail| <= g.overlap && |tail| < src.pos
    requires SliceAt(tail, src.s.data, src.pos - 1 - |tail|) && head == src.s.data[src.pos - 1]
    requires src.err == (src.s.broken && src.s.eager && src.pos == |src.s.data|)
    modifies src
    ensures src.Valid()
    ensures var st := State(old(src.pos) - 1, old(src.n) + 1, |tail|);
            var round := PlayRound(g, sc, src.s, i, st);
            var gain := Gain(g, src.s, st);
            && round.fed == Fed(st.pos, |tail|, |content|, reply, answered)
            && content == round.fed.Content(src.s)
            && (reply.Refused? ==> round.srcErr == src.err)
            && (answered ==>
                  && src.pos == st.pos + gain && src.n == st.left - gain
                  && freshN == g.windowSize - |tail| - gain
                  && |next| == Min(g.overlap, gain) && SliceAt(next, src.s.data, src.pos - |next|))
  {
    ghost var m := Meet(g, sc, src.s, i, State(src.pos - 1, src.n + 1, |tail|));
    var window := new Window(src, g, tail, head);
    content := src.s.data[window.off..window.end];
    assert window.BreaksInside() == m.BreaksInside() && window.RidesLast() == m.RidesLast();
    reply, answered := Serve(window, sc, i);
    freshN, next := window.freshN, window.ring.buf;
  }

  ghost predicate Holds(content: seq<byte>, s: Stream, x: Fed) {
    0 <= x.Begin() <= x.End() <= |s.data| && content == x.Content(s)
  }

  /** `windows` are the bytes the scanner was given, call by call. */
  ghost predicate HoldAll(windows: seq<seq<byte>>, s: Stream, fed: seq<Fed>) {
    |windows| == |fed| && forall j :: 0 <= j < |fed| ==> Holds(windows[j], s, fed[j])
  }

  lemma HoldOneMore(windows: seq<seq<byte>>, s: Stream, fed: seq<Fed>, content: seq<byte>, x: Fed)
    requires HoldAll(windows, s, fed) && Holds(content, s, x)
    ensures HoldAll(windows + [content], s, fed + [x])
  {
  }

  /** PlayWindow, told as a turn of the loop. */
  method FeedWindow(src: Source, g: Geometry, sc: Scanner, ctx: nat -> bool, i: nat, tail: seq<byte>, head: byte,
                    ghost st: State)
    returns (reply: Reply, answered: bool, freshN: nat, next: seq<byte>, ghost x: Fed, ghost content: seq<byte>)
    requires src.Valid() && g.Valid() && |tail| <= g.overlap && |tail| < src.pos
    requires SliceAt(tail, src.s.data, src.pos - 1 - |tail|) && head == src.s.data[src.pos - 1]
    requires src.err == (src.s.broken && src.s.eager && src.pos == |src.s.data|)
    requires st == State(src.pos - 1, src.n + 1, |tail|) && st.Valid(g, src.s) && !ctx(i)
    modifies src
    ensures src.Valid() && (answered ==> reply.Answer?) && Holds(content, src.s, x)
    ensures var turn := TakeTurn(g, sc, ctx, src.s, i, st);
      && (reply.Refused? && !src.err ==> turn == Over(Errored(ScannerError), Some(x)))
      && ((reply.Refused? ==> src.err) && !answered ==> turn == Over(Partial(st.pos), Some(x)))
      && (answered ==>
            && x.End() == src.pos == st.pos + (g.windowSize - |tail| - freshN)
            && src.n == st.left - (src.pos - st.pos)
            && (if reply.verdict.infected then
                  turn == Over(Outcome(reply.verdict, Coverage(false, src.pos), NoError), Some(x))
                else if freshN > 0 then
                  && turn == Over(Finished(src.s, src.pos), Some(x))
                  && (src.n > 0 ==> src.pos == |src.s.data| && !src.s.broken)
                else
                  && turn == Next(x) && x.size - x.carried == g.windowSize - |tail|
                  && |next| == Min(g.overlap, g.windowSize - |tail|) && SliceAt(next, src.s.data, src.pos - |next|)))
  {
    reply, answered, freshN, next, content := PlayWindow(src, g, sc, i, tail, head);
    x := Fed(st.pos, |tail|, |content|, reply, answered);
  }

  method ScanStream(w: WindowedScanner, sc: Scanner, ctx: nat -> bool, s: Stream)
    returns (r: Outcome, ghost report: Report, ghost windows: seq<seq<byte>>)
    ensures IsScan(w, sc, ctx, s, report) && r == report.end.outcome
    ensures HoldAll(windows, s, report.Fed())
  {
    var g := w.Layout();
    var src := new Source(s, w.Budget());
    var tail: seq<byte> := [];
    var scanned: nat := 0;
    var i: nat := 0;
    ghost var credited: seq<Fed> := [];
    ghost var x, content;
    windows := [];

    while true
      invariant src.Valid() && src.s == s && fresh(src)
      invariant |tail| <= g.overlap && SliceAt(tail, s.data, src.pos - |tail|)
      invariant scanned == src.pos && i == |credited| && src.pos + src.n == w.Budget()
      invariant StateAt(g, w.Budget(), credited, i) == State(src.pos, src.n, |tail|)
      invariant CreditsAll(g, w.Budget(), sc, ctx, s, credited)
      invariant HoldAll(windows, s, credited)
      decreases src.n
    {
      ghost var st := State(src.pos, src.n, |tail|);
      report := Report(credited, TakeTurn(g, sc, ctx, s, i, st));
      if ctx(i) {
        return Errored(ContextError), report, windows;
      }
      var head := src.Peek();
      if head == [] {
        break;
      }
      var capacity := g.windowSize - |tail|;
      var reply, answered, freshN, next;
      reply, answered, freshN, next, x, content := FeedWindow(src, g, sc, ctx, i, tail, head[0], st);
      HoldOneMore(windows, s, credited, content, x);
      windows := windows + [content];
      if reply.Refused? && !src.err {
        return Errored(ScannerError), report, windows;
      }
      if !answered {
        return Partial(scanned), report, windows;
      }
      scanned := scanned + (capacity - freshN);
      if reply.verdict.infected {
        return Outcome(reply.verdict, Coverage(false, scanned), NoError), report, windows;
      }
      if freshN > 0 {
        break;
      }
      CreditsOneMore(g, w.Budget(), sc, ctx, s, credited, x, st);
      credited := credited + [x];
      tail, i := next, i + 1;
      assert StateAt(g, w.Budget(), credited, i) == State(src.pos, src.n, |tail|);
    }
    var done := src.Ended();
    return Outcome(CLEAN, Coverage(done, scanned), NoError), report, windows;
  }
}
