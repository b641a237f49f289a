/** The clamd INSTREAM session (clamav/clamd.go): length-prefixed chunks, a zero-length chunk to
    end them, and one reply line. */
module Clamd {
  import opened Streams
  import opened Windowed
  import WindowedTheorems

  const CHUNK_SIZE: nat := 0x10_0000
  const LIMITS_EXCEEDED := "Heuristics.Limits.Exceeded"
  const STREAM_PREFIX := "stream:"

  // ---------- framing ----------

  /** binary.BigEndian.PutUint32. */
  function Be32(n: nat): (b: seq<byte>)
    requires n < 0x1_0000_0000
    ensures |b| == 4
  {
    [(n / 0x100_0000) as byte, (n / 0x1_0000 % 0x100) as byte, (n / 0x100 % 0x100) as byte, (n % 0x100) as byte]
  }

  function FromBe32(b: seq<byte>): nat
    requires |b| == 4
  {
    (b[0] as int * 0x100_0000) + (b[1] as int * 0x1_0000) + (b[2] as int * 0x100) + b[3] as int
  }

  lemma Be32RoundTrip(n: nat)
    requires n < 0x1_0000_0000
    ensures FromBe32(Be32(n)) == n
    // network byte order, the most significant byte first
    ensures var b := Be32(n); 16_777_216 * b[0] as int + 65_536 * b[1] as int + 256 * b[2] as int + b[3] as int == n
  {
    assert n == n / 0x100_0000 * 0x100_0000 + n % 0x100_0000;
    assert n / 0x1_0000 == n / 0x100_0000 * 0x100 + n / 0x1_0000 % 0x100;
    assert n / 0x100 == n / 0x1_0000 * 0x100 + n / 0x100 % 0x100;
  }

  /** One call of Read: the bytes it returned and the error it returned with them. */
  datatype ReadResult = ReadResult(chunk: seq<byte>, status: Status)

  /** What a reader handed a buffer of CHUNK_SIZE may return, up to its first error: any split of
      the input, empty calls included, the last bytes with or without the ending. */
  ghost predicate IsReading(calls: seq<ReadResult>) {
    && |calls| > 0 && calls[|calls| - 1].status != More
    && (forall k :: 0 <= k < |calls| - 1 ==> calls[k].status == More)
    && (forall k :: 0 <= k < |calls| ==> |calls[k].chunk| <= CHUNK_SIZE)
  }

  function Input(calls: seq<ReadResult>): seq<byte> {
    if calls == [] then [] else Input(calls[..|calls| - 1]) + calls[|calls| - 1].chunk
  }

  /** The frames of the reads that returned bytes. */
  function Frames(calls: seq<ReadResult>): seq<byte>
    requires forall k :: 0 <= k < |calls| ==> |calls[k].chunk| <= CHUNK_SIZE
  {
    if calls == [] then []
    else
      var r := calls[|calls| - 1];
      Frames(calls[..|calls| - 1]) + if r.chunk == [] then [] else Be32(|r.chunk|) + r.chunk
  }

  function Prepend(a: seq<byte>, d: Option<seq<byte>>): Option<seq<byte>> {
    if d.None? then None else Some(a + d.value)
  }

  lemma PrependTwice(a: seq<byte>, b: seq<byte>, d: Option<seq<byte>>)
    ensures Prepend(a, Prepend(b, d)) == Prepend(a + b, d)
    ensures Prepend([], d) == d
  {
    if d.Some? {
      assert a + (b + d.value) == (a + b) + d.value;
      assert [] + d.value == d.value;
    }
  }

  /** What the daemon makes of the bytes: the stream up to the first zero-length chunk, or None
      while that has not arrived. */
  function Decode(b: seq<byte>): Option<seq<byte>>
    decreases |b|
  {
    if |b| < 4 then None
    else
      var n := FromBe32(b[..4]);
      if n == 0 then Some([])
      else if |b| < 4 + n then None
      else
        Prepend(b[4..4 + n], Decode(b[4 + n..]))
  }

  /** Decoding a frame followed by anything. */
  lemma DecodeFrame(chunk: seq<byte>, rest: seq<byte>)
    requires 0 < |chunk| < 0x1_0000_0000
    ensures Decode(Be32(|chunk|) + chunk + rest) == Prepend(chunk, Decode(rest))
  {
    Be32RoundTrip(|chunk|);
    var b := Be32(|chunk|) + chunk + rest;
    assert b[..4] == Be32(|chunk|);
    assert b[4..4 + |chunk|] == chunk;
    assert b[4 + |chunk|..] == rest;
  }

  lemma FrameStep(frames: seq<byte>, input: seq<byte>, frame: seq<byte>, chunk: seq<byte>, rest: seq<byte>)
    requires Decode(frame + rest) == Prepend(chunk, Decode(rest))
    requires Decode(frames + (frame + rest)) == Prepend(input, Decode(frame + rest))
    ensures Decode((frames + frame) + rest) == Prepend(input + chunk, Decode(rest))
  {
    assert (frames + frame) + rest == frames + (frame + rest);
    PrependTwice(input, chunk, Decode(rest));
  }

  /** Frames in front of `rest` add their input in front of what `rest` decodes to. */
  lemma {:induction false} DecodeFrames(calls: seq<ReadResult>, rest: seq<byte>)
    requires forall k :: 0 <= k < |calls| ==> |calls[k].chunk| <= CHUNK_SIZE
    ensures Decode(Frames(calls) + rest) == Prepend(Input(calls), Decode(rest))
    decreases |calls|
  {
    if calls == [] {
      PrependTwice([], [], Decode(rest));
      assert [] + rest == rest;
    } else {
      var init, r := calls[..|calls| - 1], calls[|calls| - 1];
      if r.chunk == [] {
        DecodeFrames(init, rest);
        assert Frames(calls) == Frames(init) && Input(calls) == Input(init);
      } else {
        var frame := Be32(|r.chunk|) + r.chunk;
        DecodeFrames(init, frame + rest);
        DecodeFrame(r.chunk, rest);
        FrameStep(Frames(init), Input(init), frame, r.chunk, rest);
      }
    }
  }

  /** For every split of the input, the framed stream and its terminator decode to the input, and
      without the terminator to nothing: no chunk ends the stream early. */
  lemma FramingRoundTrip(calls: seq<ReadResult>)
    requires forall k :: 0 <= k < |calls| ==> |calls[k].chunk| <= CHUNK_SIZE
    ensures Decode(Frames(calls) + Be32(0)) == Some(Input(calls))
    ensures Decode(Frames(calls)) == None
  {
    Be32RoundTrip(0);
    assert Be32(0)[..4] == Be32(0);
    DecodeFrames(calls, Be32(0));
    assert Input(calls) + [] == Input(calls);
    DecodeFrames(calls, []);
    assert Frames(calls) + [] == Frames(calls);
  }

  /** Bytes that arrive later never change a stream that has ended, so a cut short session never
      decodes to a different stream. */
  lemma {:induction false} DecodePrefix(b: seq<byte>, more: seq<byte>)
    requires Decode(b).Some?
    ensures Decode(b + more) == Decode(b)
    decreases |b|
  {
    var n := FromBe32(b[..4]);
    assert (b + more)[..4] == b[..4];
    if n != 0 {
      assert (b + more)[4 + n..] == b[4 + n..] + more;
      assert (b + more)[4..4 + n] == b[4..4 + n];
      DecodePrefix(b[4 + n..], more);
    }
  }

  /** A frame cut short does not decode, wherever it is cut. */
  lemma CutFrame(calls: seq<ReadResult>, chunk: seq<byte>, k: nat)
    requires forall j :: 0 <= j < |calls| ==> |calls[j].chunk| <= CHUNK_SIZE
    requires 0 < |chunk| <= CHUNK_SIZE && k <= 4 + |chunk|
    ensures Decode(Frames(calls) + (Be32(|chunk|) + chunk)[..k]) == None
  {
    var frame := Be32(|chunk|) + chunk;
    Be32RoundTrip(|chunk|);
    assert k >= 4 ==> frame[..k][..4] == Be32(|chunk|);
    if k == |frame| {
      DecodeFrame(chunk, []);
      assert frame[..k] == Be32(|chunk|) + chunk + [];
    }
    DecodeFrames(calls, frame[..k]);
  }

  // ---------- the reply line ----------

  /** unicode.IsSpace. */
  predicate IsSpace(c: char) {
    || '\t' <= c <= '\r' || c == ' ' || c == '\U{85}' || c == '\U{a0}' || c == '\U{1680}'
    || '\U{2000}' <= c <= '\U{200a}' || c == '\U{2028}' || c == '\U{2029}' || c == '\U{202f}'
    || c == '\U{205f}' || c == '\U{3000}'
  }

  function TrimLeft(s: string): (r: string) {
    if s != "" && IsSpace(s[0]) then TrimLeft(s[1..]) else s
  }

  function TrimRight(s: string): (r: string) {
    if s != "" && IsSpace(s[|s| - 1]) then TrimRight(s[..|s| - 1]) else s
  }

  function TrimSpace(s: string): string {
    TrimRight(TrimLeft(s))
  }

  predicate HasPrefix(s: string, p: string) {
    |p| <= |s| && s[..|p|] == p
  }

  predicate HasSuffix(s: string, p: string) {
    |p| <= |s| && s[|s| - |p|..] == p
  }

  function TrimPrefix(s: string, p: string): string {
    if HasPrefix(s, p) then s[|p|..] else s
  }

  function TrimSuffix(s: string, p: string): string {
    if HasSuffix(s, p) then s[..|s| - |p|] else s
  }

  function Classify(raw: string): Reply {
    var line := TrimSpace(raw);
    if !HasPrefix(line, STREAM_PREFIX) && !HasSuffix(line, "ERROR") then Refused
    else if HasSuffix(line, "ERROR") then Refused
    else if line == STREAM_PREFIX + " OK" then Answer(CLEAN)
    else if HasSuffix(line, "FOUND") then
      var signature := TrimSpace(TrimSuffix(TrimPrefix(line, STREAM_PREFIX), "FOUND"));
      if HasPrefix(signature, LIMITS_EXCEEDED) then Refused
      else Answer(Verdict(true, signature))
    else Refused
  }

  /** Fail closed: the one reply that counts as clean. */
  lemma CleanExactly(raw: string)
    ensures (Classify(raw).Answer? && !Classify(raw).verdict.infected) <==> TrimSpace(raw) == "stream: OK"
  {
    var line := TrimSpace(raw);
    if line == "stream: OK" {
      assert line[..7] == STREAM_PREFIX;
      assert line[|line| - 5..][4] == 'K' && "ERROR"[4] == 'R';
    }
  }

  lemma DetectionIsRead(raw: string, middle: string)
    requires TrimSpace(raw) == STREAM_PREFIX + middle + "FOUND"
    ensures Classify(raw)
         == if HasPrefix(TrimSpace(middle), LIMITS_EXCEEDED) then Refused else Answer(Verdict(true, TrimSpace(middle)))
  {
    var line, rest := TrimSpace(raw), middle + "FOUND";
    assert line == STREAM_PREFIX + rest && line[..7] == STREAM_PREFIX && line[7..] == rest;
    assert rest[|rest| - 5..] == "FOUND" && rest[..|rest| - 5] == middle;
    assert line[|line| - 5..] == "FOUND" && line[|line| - 1] == 'D';
    assert "ERROR"[4] == 'R' && "stream: OK"[9] == 'K';
  }

  /** The replies that count as a detection: every other line but the clean one is no verdict. */
  lemma InfectedExactly(raw: string, sig: string)
    ensures Classify(raw) == Answer(Verdict(true, sig)) <==>
      exists middle :: && TrimSpace(raw) == "stream:" + middle + "FOUND"
                       && sig == TrimSpace(middle) && !HasPrefix(sig, "Heuristics.Limits.Exceeded")
  {
    var line := TrimSpace(raw);
    if Classify(raw) == Answer(Verdict(true, sig)) {
      var middle := SplitDetection(line);
      DetectionIsRead(raw, middle);
    }
    if middle :| && line == STREAM_PREFIX + middle + "FOUND" && sig == TrimSpace(middle)
                 && !HasPrefix(sig, LIMITS_EXCEEDED) {
      DetectionIsRead(raw, middle);
    }
  }

  /** "stream:" cannot reach into the final "FOUND". */
  lemma SplitDetection(line: string) returns (middle: string)
    requires HasPrefix(line, STREAM_PREFIX) && HasSuffix(line, "FOUND")
    ensures line == STREAM_PREFIX + middle + "FOUND"
  {
    assert line[6] == line[..7][6] == ':';
    assert forall k :: 0 <= k < 5 ==> line[|line| - 5 + k] == "FOUND"[k] != ':';
    assert |line| >= 12;
    middle := line[7..|line| - 5];
  }

  /** A text no trimming changes. */
  predicate Trimmed(s: string) {
    s != "" ==> !IsSpace(s[0]) && !IsSpace(s[|s| - 1])
  }

  lemma TrimPadded(sig: string)
    requires sig != "" && Trimmed(sig)
    ensures TrimSpace(" " + sig + " ") == sig
  {
    var padded := " " + sig + " ";
    assert padded[1..] == sig + " ";
    assert TrimLeft(sig + " ") == sig + " ";
    assert (sig + " ")[..|sig|] == sig;
    assert TrimRight(sig) == sig;
  }

  /** Whatever signature the daemon names is the one reported, unless it says that it stopped at a
      limit: that is no verdict at all. */
  lemma DetectionRoundTrip(sig: string)
    requires sig != "" && Trimmed(sig)
    ensures Classify("stream: " + sig + " FOUND\n")
         == if HasPrefix(sig, "Heuristics.Limits.Exceeded") then Refused else Answer(Verdict(true, sig))
  {
    var line, middle := "stream: " + sig + " FOUND", " " + sig + " ";
    var raw := "stream: " + sig + " FOUND\n";
    assert TrimLeft(raw) == raw && raw[..|raw| - 1] == line;
    assert TrimRight(line) == line && TrimSpace(raw) == line;
    assert line == STREAM_PREFIX + middle + "FOUND";
    TrimPadded(sig);
    DetectionIsRead(raw, middle);
  }

  /** A limit notice is no verdict, whatever follows its name. */
  lemma LimitNoticeIsRefused(rest: string)
    requires Trimmed("Heuristics.Limits.Exceeded" + rest)
    ensures Classify("stream: " + ("Heuristics.Limits.Exceeded" + rest) + " FOUND\n") == Refused
  {
    var sig := "Heuristics.Limits.Exceeded" + rest;
    assert sig[..26] == "Heuristics.Limits.Exceeded";
    DetectionRoundTrip(sig);
  }

  // ---------- the session ----------

  /** A connection: what was sent, and how many more writes succeed. */
  class Conn {
    var sent: seq<byte>
    var writesLeft: Option<nat>

    constructor (writesLeft: Option<nat>)
      ensures sent == [] && this.writesLeft == writesLeft
    {
      sent, this.writesLeft := [], writesLeft;
    }

    /** A failed write may have sent a part. */
    method Write(p: seq<byte>) returns (ok: bool)
      modifies this
      ensures ok ==> sent == old(sent) + p
      ensures !ok ==> exists k :: 0 <= k <= |p| && sent == old(sent) + p[..k]
      ensures old(writesLeft) == None ==> ok && writesLeft == None
    {
      if writesLeft == Some(0) {
        var k :| 0 <= k <= |p|;
        sent := sent + p[..k];
        return false;
      }
      sent := sent + p;
      writesLeft := if writesLeft.Some? then Some(writesLeft.value - 1) else None;
      return true;
    }
  }

  /** Length prefix, then the chunk. */
  method SendChunk(conn: Conn, ghost before: seq<ReadResult>, chunk: seq<byte>) returns (ok: bool)
    requires 0 < |chunk| <= CHUNK_SIZE && forall j :: 0 <= j < |before| ==> |before[j].chunk| <= CHUNK_SIZE
    requires conn.sent == Frames(before)
    modifies conn
    ensures ok ==> conn.sent == Frames(before) + (Be32(|chunk|) + chunk)
    ensures !ok ==> Decode(conn.sent) == None
    ensures old(conn.writesLeft) == None ==> ok && conn.writesLeft == None
  {
    ok := conn.Write(Be32(|chunk|));
    if !ok {
      ghost var k :| 0 <= k <= 4 && conn.sent == Frames(before) + Be32(|chunk|)[..k];
      CutLength(before, chunk, k);
      return;
    }
    ok := conn.Write(chunk);
    if !ok {
      ghost var k :| 0 <= k <= |chunk| && conn.sent == Frames(before) + Be32(|chunk|) + chunk[..k];
      CutChunk(before, chunk, k);
    }
  }

  lemma CutLength(calls: seq<ReadResult>, chunk: seq<byte>, k: nat)
    requires forall j :: 0 <= j < |calls| ==> |calls[j].chunk| <= CHUNK_SIZE
    requires 0 < |chunk| <= CHUNK_SIZE && k <= 4
    ensures Decode(Frames(calls) + Be32(|chunk|)[..k]) == None
  {
    CutFrame(calls, chunk, k);
    assert Be32(|chunk|)[..k] == (Be32(|chunk|) + chunk)[..k];
  }

  lemma CutChunk(calls: seq<ReadResult>, chunk: seq<byte>, k: nat)
    requires forall j :: 0 <= j < |calls| ==> |calls[j].chunk| <= CHUNK_SIZE
    requires 0 < |chunk| <= CHUNK_SIZE && k <= |chunk|
    ensures Decode(Frames(calls) + Be32(|chunk|) + chunk[..k]) == None
  {
    CutFrame(calls, chunk, 4 + k);
    assert Frames(calls) + Be32(|chunk|) + chunk[..k] == Frames(calls) + (Be32(|chunk|) + chunk)[..4 + k];
  }

  /** The terminator and the reply, after the chunks of all `calls`. */
  method Finish(conn: Conn, ghost calls: seq<ReadResult>, line: Option<string>) returns (reply: Reply)
    requires (forall k :: 0 <= k < |calls| ==> |calls[k].chunk| <= CHUNK_SIZE) && conn.sent == Frames(calls)
    modifies conn
    ensures reply.Answer? ==> line.Some? && reply == Classify(line.value) && Decode(conn.sent).Some?
    ensures Decode(conn.sent).Some? ==> Decode(conn.sent) == Some(Input(calls))
    ensures old(conn.writesLeft) == None ==>
      Decode(conn.sent).Some? && reply == (if line.Some? then Classify(line.value) else Refused)
  {
    FramingRoundTrip(calls);
    var ok := conn.Write(Be32(0));
    if !ok {
      ghost var k :| 0 <= k <= 4 && conn.sent == Frames(calls) + Be32(0)[..k];
      if k < 4 {
        DecodeFrames(calls, Be32(0)[..k]);
      } else {
        assert Be32(0)[..k] == Be32(0);
      }
      return Refused;
    }
    return if line.Some? then Classify(line.value) else Refused;
  }

  /** The chunk loop, the terminator and the reply, after nINSTREAM was sent. `line` is what the
      daemon answers, None when the connection closes first. */
  method Scan(conn: Conn, calls: seq<ReadResult>, line: Option<string>) returns (reply: Reply)
    requires IsReading(calls) && conn.sent == []
    modifies conn
    // an answer stands for the whole input, sent as one stream
    ensures reply.Answer? ==>
      && calls[|calls| - 1].status == Eof && line.Some? && reply == Classify(line.value)
      && Decode(conn.sent) == Some(Input(calls))
    // the daemon never takes anything else for the whole stream
    ensures Decode(conn.sent).Some? ==> calls[|calls| - 1].status == Eof && Decode(conn.sent) == Some(Input(calls))
    // and with a connection that holds, a healthy input is always delivered
    ensures old(conn.writesLeft) == None && calls[|calls| - 1].status == Eof ==>
      Decode(conn.sent) == Some(Input(calls))
      && reply == (if line.Some? then Classify(line.value) else Refused)
  {
    var i := 0;
    while true
      invariant 0 <= i < |calls|
      invariant conn.sent == Frames(calls[..i])
      invariant old(conn.writesLeft) == None ==> conn.writesLeft == None
      decreases |calls| - i
    {
      var ReadResult(chunk, status) := calls[i];
      assert calls[..i + 1] == calls[..i] + [ReadResult(chunk, status)];
      var ok := Forward(conn, calls[..i], chunk, status);
      if !ok {
        return Refused;
      }
      i := i + 1;
      if status == Eof {
        break;
      }
      if status == Failed {
        FramingRoundTrip(calls[..i]);
        return Refused;
      }
    }
    assert calls[..i] == calls;
    reply := Finish(conn, calls, line);
  }

  // ---------- as a scanner of windows ----------

  /** The calls so far of a reader that has returned bytes of `s` from offset `from` up to `to`. */
  ghost predicate ReadSoFar(calls: seq<ReadResult>, s: Stream, from: nat, to: nat) {
    && (forall k :: 0 <= k < |calls| ==> |calls[k].chunk| <= CHUNK_SIZE)
    && from + |Input(calls)| == to && SliceAt(Input(calls), s.data, from)
  }

  lemma ReadOneMore(calls: seq<ReadResult>, r: ReadResult, s: Stream, from: nat, to: nat)
    requires ReadSoFar(calls, s, from, to) && |r.chunk| <= CHUNK_SIZE && SliceAt(r.chunk, s.data, to)
    ensures ReadSoFar(calls + [r], s, from, to + |r.chunk|)
    ensures Frames(calls + [r]) == Frames(calls) + if r.chunk == [] then [] else Be32(|r.chunk|) + r.chunk
  {
    var more := calls + [r];
    assert more[..|calls|] == calls && Input(more) == Input(calls) + r.chunk;
    forall k | 0 <= k < |Input(more)|
      ensures Input(more)[k] == s.data[from + k]
    {
      if k >= |Input(calls)| {
        assert r.chunk[k - |Input(calls)|] == s.data[to + (k - |Input(calls)|)];
      }
    }
  }

  /** Sends on what one read returned, unless that is nothing. */
  method Forward(conn: Conn, ghost calls: seq<ReadResult>, chunk: seq<byte>, ghost status: Status) returns (ok: bool)
    requires (forall k :: 0 <= k < |calls| ==> |calls[k].chunk| <= CHUNK_SIZE) && |chunk| <= CHUNK_SIZE
    requires conn.sent == Frames(calls)
    modifies conn
    ensures ok ==> conn.sent == Frames(calls + [ReadResult(chunk, status)])
    ensures !ok ==> Decode(conn.sent) == None
    ensures old(conn.writesLeft) == None ==> ok && conn.writesLeft == None
  {
    assert (calls + [ReadResult(chunk, status)])[..|calls|] == calls;
    ok := true;
    if |chunk| > 0 {
      ok := SendChunk(conn, calls, chunk);
    }
  }

  /** One read of the window, into the buffer of the chunk loop. */
  method ReadChunk(window: Window, ghost calls: seq<ReadResult>, ghost from: nat)
    returns (chunk: seq<byte>, status: Status, ghost calls': seq<ReadResult>)
    requires window.Valid() && ReadSoFar(calls, window.src.s, from, window.off)
    modifies window, window.src, window.ring
    ensures window.Valid() && old(window.off) <= window.off <= window.end
    ensures window.src.pos + window.src.n == old(window.src.pos + window.src.n)
    ensures window.src.pos + window.freshN == old(window.src.pos + window.freshN)
    ensures if status == More then old(window.off) < window.off else window.off == window.end
    ensures status == Failed <==>
      || (old(window.BreaksInside()) && old(window.off) == window.end)
      || (old(window.RidesLast()) && window.off == window.end)
    ensures status == Eof ==> !old(window.BreaksInside())
    ensures window.src.err == (old(window.src.err) || status == Failed)
    ensures |chunk| <= CHUNK_SIZE && calls' == calls + [ReadResult(chunk, status)]
    ensures ReadSoFar(calls', window.src.s, from, window.off)
  {
    ghost var s, off := window.src.s, window.off;
    chunk, status := window.Read(CHUNK_SIZE);
    calls' := calls + [ReadResult(chunk, status)];
    ReadOneMore(calls, ReadResult(chunk, status), s, from, off);
  }

  /** The chunk loop over a window: to the window one call of a scanner that asks for `want` bytes and sees
      a failure when `saw`. It gets through when all of the window was sent. */
  method SendWindow(conn: Conn, window: Window)
    returns (whole: bool, ghost calls: seq<ReadResult>, ghost want: Option<nat>, ghost saw: bool)
    requires window.Valid() && conn.sent == []
    modifies conn, window, window.src, window.ring
    ensures window.Valid() && (whole ==> want.None? && !saw && window.off == window.end)
    ensures var len := window.end - old(window.off);
            && window.off == old(window.off) + ReadCount(want, len)
            && saw == ((old(window.BreaksInside()) && ReadsPast(want, len))
                       || (old(window.RidesLast()) && window.off == window.end))
    ensures window.src.pos + window.src.n == old(window.src.pos + window.src.n)
    ensures window.src.pos + window.freshN == old(window.src.pos + window.freshN)
    ensures window.src.err == (old(window.src.err) || saw)
    ensures ReadSoFar(calls, window.src.s, old(window.off), window.off)
    ensures if whole then conn.sent == Frames(calls) else Decode(conn.sent) == None
    // over a connection that holds, a window that can be read gets through
    ensures old(conn.writesLeft) == None ==> conn.writesLeft == None && (whole <==> !saw)
  {
    ghost var from := window.off;
    calls, saw, want := [], false, None;
    while true
      invariant window.Valid() && !saw && from <= window.off <= window.end
      invariant ReadSoFar(calls, window.src.s, from, window.off) && conn.sent == Frames(calls)
      invariant window.src.pos + window.src.n == old(window.src.pos + window.src.n)
      invariant window.src.pos + window.freshN == old(window.src.pos + window.freshN)
      invariant window.RidesLast() == old(window.RidesLast()) && window.src.err == old(window.src.err)
      invariant old(conn.writesLeft) == None ==> conn.writesLeft == None
      decreases window.end - window.off
    {
      ghost var before := calls;
      var chunk, status;
      chunk, status, calls := ReadChunk(window, calls, from);
      var ok := Forward(conn, before, chunk, status);
      saw, want := status == Failed, if status == More then Some(window.off - from) else None;
      if !ok {
        return false, calls, want, saw;
      }
      if status == Eof {
        return true, calls, want, saw;
      }
      if status == Failed {
        FramingRoundTrip(calls);
        return false, calls, want, saw;
      }
    }
  }

  /** ClamdScanner.Scan reading a window of a scan: an answer means that the daemon was sent exactly the
      window, to its end, and no read failed. */
  method ScanWindow(conn: Conn, window: Window, line: Option<string>)
    returns (reply: Reply, ghost want: Option<nat>, ghost saw: bool)
    requires window.Valid() && conn.sent == []
    modifies conn, window, window.src, window.ring
    ensures window.Valid() && WindowedTheorems.Heeds(want, saw, reply)
    ensures var len := window.end - old(window.off);
            && window.off == old(window.off) + ReadCount(want, len)
            && saw == ((old(window.BreaksInside()) && ReadsPast(want, len))
                       || (old(window.RidesLast()) && window.off == window.end))
    ensures window.src.pos + window.src.n == old(window.src.pos + window.src.n)
    ensures window.src.pos + window.freshN == old(window.src.pos + window.freshN)
    ensures window.src.err == (old(window.src.err) || saw)
    ensures reply.Answer? ==> line.Some? && reply == Classify(line.value)
    ensures reply.Answer? || Decode(conn.sent).Some? ==>
      window.off == window.end && Decode(conn.sent) == Some(window.src.s.data[old(window.off)..window.end])
    // over a connection that holds, a window that can be read gets the daemon's answer
    ensures old(conn.writesLeft) == None && !saw ==>
      Decode(conn.sent).Some? && reply == (if line.Some? then Classify(line.value) else Refused)
  {
    var whole;
    ghost var calls;
    whole, calls, want, saw := SendWindow(conn, window);
    if !whole {
      return Refused, want, saw;
    }
    reply := Finish(conn, calls, line);
    assert Input(calls) == window.src.s.data[old(window.off)..window.end];
  }

  /** ClamdScanner in a windowed scan: what Serve does around it, drain included, is what it does around
      some thorough scanner, and no answer is lost to the drain. */
  method ServeWindow(conn: Conn, window: Window, line: Option<string>, i: nat)
    returns (reply: Reply, answered: bool, ghost sc: Scanner)
    requires window.Valid() && conn.sent == []
    modifies conn, window, window.src, window.ring
    ensures window.Valid() && WindowedTheorems.Thorough(sc)
    ensures var len := window.end - old(window.off);
            var k := ReadCount(sc.want(i), len);
            var saw := (old(window.BreaksInside()) && ReadsPast(sc.want(i), len))
                       || (old(window.RidesLast()) && k == len);
            && reply == sc.reply(i, saw)
            && (reply.Refused? ==> window.src.err == (old(window.src.err) || saw))
            && answered == (reply.Answer? && !old(window.BreaksInside()) && !(old(window.RidesLast()) && k < len))
    ensures window.src.pos + window.src.n == old(window.src.pos + window.src.n)
    ensures window.src.pos + window.freshN == old(window.src.pos + window.freshN)
    ensures answered <==> reply.Answer?
    ensures old(conn.writesLeft) == None && !old(window.BreaksInside()) && !old(window.RidesLast()) ==>
      reply == (if line.Some? then Classify(line.value) else Refused)
    ensures answered ==>
      window.off == window.end && Decode(conn.sent) == Some(window.src.s.data[old(window.off)..window.end])
  {
    ghost var want, saw;
    reply, want, saw := ScanWindow(conn, window, line);
    sc := Scanner(_ => want, (_, failed) => if failed == saw then reply else Refused);
    answered := false;
    if reply.Answer? {
      var drained, failed := window.Pull(None);
      answered := !failed;
    }
  }
}
