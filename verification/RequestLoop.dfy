/** The keep-alive request loop of PII mode: bytes in, whole requests out. */
module RequestLoop {
  import opened Bytes
  import opened Text
  import opened Chunked
  import opened Requests

  /** Framing of the request under way. */
  datatype Framing = Framing(
    headerDone: bool, contentLength: Option<nat>, isChunked: bool, bodyStart: nat, bodyReceived: nat)

  const IDLE := Framing(false, None, false, 0, 0)

  /** The loop's variables; a panic in the loop ends its task. */
  datatype LoopState = LoopState(raw: Bytes, framing: Framing, alive: bool)

  const BEGIN := LoopState([], IDLE, true)

  const LAST_CHUNK: Bytes := [13, 10, 48, 13, 10, 13, 10]

  /** Offset behind the terminal chunk, looked for by its bytes. */
  function ChunkedBodyEnd(body: Bytes): (r: Option<nat>)
    ensures r.Some? ==> r.value <= |body|
  {
    match Find(body, LAST_CHUNK)
    case Some(p) => Some(p + 7)
    case None => if TERMINAL <= body then Some(5) else None
  }

  /** A request taken off the front of the buffer, with its decoded body. */
  datatype Extraction = Extraction(slice: Bytes, body: Bytes)

  /** Framing after new bytes have been appended. */
  function Framed(f: Framing, raw: Bytes, added: nat): Framing {
    if f.headerDone then f.(bodyReceived := f.bodyReceived + added)
    else
      match HeaderEnd(raw)
      case None => f
      case Some(e) =>
        var cl := ContentLength(raw[..e]);
        Framing(true, cl, cl.None? && IsChunked(raw[..e]), e, |raw| - e)
  }

  predicate BodyDone(f: Framing, raw: Bytes)
    requires f.headerDone ==> f.bodyStart <= |raw|
  {
    f.headerDone &&
    if f.contentLength.Some? then f.bodyReceived >= f.contentLength.value
    else if f.isChunked then ChunkedBodyEnd(raw[f.bodyStart..]).Some?
    else true
  }

  /** The buffer agrees with the framing. */
  ghost predicate Consistent(s: LoopState) {
    if s.framing.headerDone then
      && HeaderEnd(s.raw) == Some(s.framing.bodyStart)
      && s.framing.bodyReceived == |s.raw| - s.framing.bodyStart
      && s.framing.contentLength == ContentLength(s.raw[..s.framing.bodyStart])
      && s.framing.isChunked == (s.framing.contentLength.None? && IsChunked(s.raw[..s.framing.bodyStart]))
    else
      s.framing == IDLE
  }

  lemma HeaderEndStable(raw: Bytes, b: Bytes)
    requires HeaderEnd(raw).Some?
    ensures HeaderEnd(raw + b) == HeaderEnd(raw)
  {
    hide Find;
    FindStable(raw, b, BLANK);
  }

  /** Appending keeps the buffer and the framing in step. */
  lemma FramedIsConsistent(s: LoopState, chunk: Bytes)
    requires Consistent(s)
    ensures
      var raw := s.raw + chunk;
      var f := Framed(s.framing, raw, |chunk|);
      && Consistent(LoopState(raw, f, true)) && Consistent(LoopState(raw, f, false))
      && (f.headerDone ==> f.bodyStart <= |raw|)
  {
    hide Find, ContentLength, IsChunked;
    if s.framing.headerDone {
      HeaderEndStable(s.raw, chunk);
      assert (s.raw + chunk)[..s.framing.bodyStart] == s.raw[..s.framing.bodyStart];
    }
  }

  /** How much of the buffer the finished request takes. */
  function Consumed(f: Framing, raw: Bytes): nat
    requires f.headerDone && f.bodyStart <= |raw| && BodyDone(f, raw)
  {
    if f.isChunked && f.contentLength.None? then f.bodyStart + ChunkedBodyEnd(raw[f.bodyStart..]).value
    else f.bodyStart + (if f.contentLength.Some? then f.contentLength.value else f.bodyReceived)
  }

  /** Everything taken lies inside the buffer. */
  lemma ConsumedInRange(s: LoopState)
    requires Consistent(s) && s.framing.headerDone && s.framing.bodyStart <= |s.raw| && BodyDone(s.framing, s.raw)
    ensures s.framing.bodyStart <= Consumed(s.framing, s.raw) <= |s.raw|
  {
    hide Find, ContentLength, IsChunked;
  }

  /** The decoded body; a malformed chunked body is taken as it stands, and decoding may panic. */
  ghost function Body(f: Framing, raw: Bytes): Decoded
    requires f.headerDone && f.bodyStart <= |raw| && BodyDone(f, raw)
    requires f.bodyStart <= Consumed(f, raw) <= |raw|
  {
    var slice := raw[f.bodyStart..Consumed(f, raw)];
    if f.isChunked && f.contentLength.None? then
      var d := OneShot(slice, 0);
      if d.Malformed? then Payload(slice) else d
    else
      Payload(slice)
  }

  /** One read: the new state, and the request it completes, if any. A task that has died reads nothing. */
  ghost function Step(s: LoopState, chunk: Bytes): (LoopState, Option<Extraction>)
    requires Consistent(s)
  {
    if !s.alive then (s, None)
    else
      var raw := s.raw + chunk;
      var f := Framed(s.framing, raw, |chunk|);
      FramedIsConsistent(s, chunk);
      if !BodyDone(f, raw) then (LoopState(raw, f, true), None)
      else
        ConsumedInRange(LoopState(raw, f, true));
        var n := Consumed(f, raw);
        match Body(f, raw)
        case Payload(body) => (LoopState(raw[n..], IDLE, true), Some(Extraction(raw[..n], body)))
        case _ => (LoopState(raw, f, false), None)
  }

  lemma StepIsConsistent(s: LoopState, chunk: Bytes)
    requires Consistent(s)
    ensures Consistent(Step(s, chunk).0)
  {
    hide Consistent, BodyDone, Framed, Consumed, Body;
    FramedIsConsistent(s, chunk);
    IdleIsConsistent();
  }

  lemma IdleIsConsistent()
    ensures forall raw :: Consistent(LoopState(raw, IDLE, true))
  {
    hide Find, ContentLength, IsChunked;
  }

  class Connection {
    var raw: Bytes
    var framing: Framing
    var alive: bool

    function State(): LoopState
      reads this
    {
      LoopState(raw, framing, alive)
    }

    constructor ()
      ensures State() == BEGIN
    {
      raw, framing, alive := [], IDLE, true;
    }

    /** One successful read of the loop. */
    method OnRead(chunk: Bytes) returns (request: Option<Extraction>)
      requires Consistent(State()) && alive
      modifies this
      ensures (State(), request) == Step(old(State()), chunk) && Consistent(State())
    {
      hide ContentLength, IsChunked, Find, NoneBefore, OneShot, ChunkedBodyEnd, HeaderEnd, SizeOf;
      StepIsConsistent(State(), chunk);
      FramedIsConsistent(State(), chunk);
      raw := raw + chunk;
      if !framing.headerDone {
        var headerEnd := FindHeaderEnd(raw);
        if headerEnd.Some? {
          var cl := ParseContentLength(raw[..headerEnd.value]);
          framing := Framing(true, cl, cl.None? && IsChunked(raw[..headerEnd.value]), headerEnd.value,
                             |raw| - headerEnd.value);
        }
      } else {
        framing := framing.(bodyReceived := framing.bodyReceived + |chunk|);
      }
      if !BodyDone(framing, raw) { return None; }
      ConsumedInRange(State());
      var body: Bytes, consumed: nat;
      if framing.isChunked {
        var end := ChunkedBodyEnd(raw[framing.bodyStart..]).value;
        var decoded := DecodeChunkedBody(raw[framing.bodyStart..framing.bodyStart + end]);
        if decoded.Panics? {
          alive := false;
          return None;
        }
        body := if decoded.Payload? then decoded.bytes else raw[framing.bodyStart..framing.bodyStart + end];
        consumed := framing.bodyStart + end;
      } else {
        var cl := if framing.contentLength.Some? then framing.contentLength.value else framing.bodyReceived;
        body := raw[framing.bodyStart..framing.bodyStart + cl];
        consumed := framing.bodyStart + cl;
      }
      request := Some(Extraction(raw[..consumed], body));
      raw := raw[consumed..];
      framing := IDLE;
    }
  }

  // ----- Whole runs

  /** The requests extracted over a list of reads, and the final state. */
  ghost function Run(s: LoopState, chunks: seq<Bytes>): (seq<Extraction>, LoopState)
    requires Consistent(s)
    decreases |chunks|
  {
    if chunks == [] then ([], s)
    else
      StepIsConsistent(s, chunks[0]);
      var (s1, x) := Step(s, chunks[0]);
      var (xs, end) := Run(s1, chunks[1..]);
      ((if x.Some? then [x.value] else []) + xs, end)
  }

  function Slices(xs: seq<Extraction>): (bs: seq<Bytes>)
    ensures |bs| == |xs|
  {
    seq(|xs|, i requires 0 <= i < |xs| => xs[i].slice)
  }

  lemma StepConserves(s: LoopState, chunk: Bytes)
    requires Consistent(s)
    ensures
      var (s1, x) := Step(s, chunk);
      (if x.Some? then x.value.slice else []) + s1.raw == s.raw + (if s.alive then chunk else [])
  {
    hide Consistent, BodyDone, Framed, Consumed, Body;
    if s.alive {
      FramedIsConsistent(s, chunk);
      var raw := s.raw + chunk;
      var f := Framed(s.framing, raw, |chunk|);
      if BodyDone(f, raw) {
        DoneHasHeader(f, raw);
        ConsumedInRange(LoopState(raw, f, true));
        assert raw[..Consumed(f, raw)] + raw[Consumed(f, raw)..] == raw;
      }
    }
  }

  lemma DoneHasHeader(f: Framing, raw: Bytes)
    requires f.headerDone ==> f.bodyStart <= |raw|
    ensures BodyDone(f, raw) ==> f.headerDone
  {
  }

  lemma SlicesCons(x: Option<Extraction>, xs: seq<Extraction>)
    ensures Flatten(Slices((if x.Some? then [x.value] else []) + xs)) ==
      (if x.Some? then x.value.slice else []) + Flatten(Slices(xs))
  {
    if x.Some? {
      assert Slices([x.value] + xs) == [x.value.slice] + Slices(xs);
    } else {
      assert [] + xs == xs;
    }
  }

  /** What the loop reads of a list of chunks: all of them, or those up to its death. */
  ghost function Read(s: LoopState, chunks: seq<Bytes>): Bytes
    requires Consistent(s)
    decreases |chunks|
  {
    if chunks == [] || !s.alive then []
    else
      StepIsConsistent(s, chunks[0]);
      chunks[0] + Read(Step(s, chunks[0]).0, chunks[1..])
  }

  lemma DeadStaysDead(s: LoopState, chunk: Bytes)
    requires Consistent(s) && !s.alive
    ensures Step(s, chunk) == (s, None)
  {
  }

  /** Conservation: in every run, the slices taken followed by the buffer are the bytes read, in order. */
  lemma {:induction false} RunConserves(s: LoopState, chunks: seq<Bytes>)
    requires Consistent(s)
    ensures
      var (xs, end) := Run(s, chunks);
      && Flatten(Slices(xs)) + end.raw == s.raw + Read(s, chunks) && Consistent(end)
      && (end.alive ==> s.alive && Read(s, chunks) == Flatten(chunks))
    decreases |chunks|
  {
    hide Consistent, Step, Slices;
    if chunks == [] {
      NoSlices();
      assert s.raw + [] == [] + s.raw;
    } else {
      var c, rest := chunks[0], chunks[1..];
      StepIsConsistent(s, c);
      StepConserves(s, c);
      if !s.alive { DeadStaysDead(s, c); }
      var (s1, x) := Step(s, c);
      RunConserves(s1, rest);
      SlicesCons(x, Run(s1, rest).0);
      var taken := if x.Some? then x.value.slice else [];
      Assoc(taken, Flatten(Slices(Run(s1, rest).0)), Run(s1, rest).1.raw);
      Assoc(taken, s1.raw, Read(s1, rest));
      Assoc(s.raw, if s.alive then c else [], Read(s1, rest));
    }
  }

  /**
   * Exactly when a read kills the loop: it completes a chunked request whose body, decoded incrementally, would
   * stop behind a chunk without its whole CRLF or in one too long for any address.
   */
  lemma LoopDiesIff(s: LoopState, chunk: Bytes)
    requires Consistent(s) && s.alive && |s.raw + chunk| <= USIZE_MAX
    ensures
      var raw := s.raw + chunk;
      !Step(s, chunk).0.alive <==>
        && HeaderEnd(raw).Some?
        && var e := HeaderEnd(raw).value;
        && ContentLength(raw[..e]).None? && IsChunked(raw[..e]) && ChunkedBodyEnd(raw[e..]).Some?
        && KillsDecoder(raw[e..e + ChunkedBodyEnd(raw[e..]).value])
  {
    hide Find, ContentLength, IsChunked, OneShot, Drain, Ends, StopsBadly;
    FramedIsConsistent(s, chunk);
    var raw := s.raw + chunk;
    var f := Framed(s.framing, raw, |chunk|);
    if f.headerDone && f.isChunked && BodyDone(f, raw) {
      ConsumedInRange(LoopState(raw, f, true));
      var slice := raw[f.bodyStart..Consumed(f, raw)];
      assert slice[0..] == slice;
      OneShotPanicsIff(slice, 0, 0);
    }
  }

  predicate KillsDecoder(body: Bytes) {
    var st := DecoderState(body, 0, ReadingSize);
    !Ends(st) && StopsBadly(Drain(st).1, |body|)
  }

  /** Any chunked request with a chunk that claims more than it holds kills the loop. */
  lemma ShortChunkKills(header: Bytes)
    requires HeaderEnd(header) == Some(|header|) && ContentLength(header).None? && IsChunked(header)
    ensures Consistent(BEGIN) && !Step(BEGIN, header + SHORT_CHUNK).0.alive
  {
    IdleIsConsistent();
    ShortChunkEnds();
    ShortChunkPanics();
    hide Find, ContentLength, IsChunked, OneShot, ChunkedBodyEnd, SHORT_CHUNK;
    var raw := header + SHORT_CHUNK;
    HeaderEndStable(header, SHORT_CHUNK);
    assert [] + raw == raw && raw[..|header|] == header && raw[|header|..] == SHORT_CHUNK;
    assert raw[|header|..|raw|] == SHORT_CHUNK;
  }

  lemma ShortChunkEnds()
    ensures ChunkedBodyEnd(SHORT_CHUNK) == Some(|SHORT_CHUNK|)
  {
    var d := SHORT_CHUNK;
    assert LAST_CHUNK <= d[5..];
    forall j | 0 <= j < 5 ensures !(LAST_CHUNK <= d[j..]) {
      assert d[j..][0] == d[j] && d[j..][2] == d[j + 2];
    }
    FindIs(d, LAST_CHUNK, 5);
  }

  lemma NoSlices()
    ensures Slices([]) == [] && Flatten([]) == []
  {
  }

  // ----- Streams of requests

  /** A request whose header states the body's length, or one whose body is chunked. */
  datatype Request =
    | Counted(header: Bytes, body: Bytes)
    | Coded(header: Bytes, pieces: seq<Piece>, last: SizeLine)
  {
    /** The body as it is sent. */
    function BodyWire(): Bytes {
      if Counted? then body else Chunked.Wire(pieces, last)
    }

    /** The body as it is meant. */
    function Payload(): Bytes {
      if Counted? then body else DataOf(pieces)
    }

    function Wire(): Bytes {
      header + BodyWire()
    }

    /**
     * The header ends at its first blank line and frames the body; the bytes that the loop takes for the end of a
     * chunked body stand at its end and nowhere earlier.
     */
    predicate Good() {
      && HeaderEnd(header) == Some(|header|)
      && (Counted? ==> ContentLength(header) == Some(|body|))
      && (Coded? ==>
            && ContentLength(header).None? && IsChunked(header)
            && (forall p :: p in pieces ==> p.Good()) && last.Says(0) && |BodyWire()| <= USIZE_MAX
            && if pieces == [] then BodyWire() == TERMINAL
               else Find(BodyWire(), LAST_CHUNK) == Some(|BodyWire()| - 7))
    }

    /** Behind an empty chunked body, what follows must not show the end of another one. */
    predicate ClearOf(t: Bytes) {
      Coded? && pieces == [] ==> Find(BodyWire() + t, LAST_CHUNK).None?
    }
  }

  function Wires(rs: seq<Request>): Bytes
    decreases |rs|
  {
    if rs == [] then [] else rs[0].Wire() + Wires(rs[1..])
  }

  ghost predicate WellFramed(rs: seq<Request>)
    decreases |rs|
  {
    rs == [] || (rs[0].Good() && rs[0].ClearOf(Wires(rs[1..])) && WellFramed(rs[1..]))
  }

  /** A prefix of a request shows the header exactly when it holds all of it. */
  lemma HeaderInPrefix(r: Request, raw: Bytes, t: Bytes)
    requires r.Good() && raw <= r.header + t
    ensures HeaderEnd(raw) == if |raw| >= |r.header| then Some(|r.header|) else None
  {
    hide Find, ContentLength;
    if |raw| >= |r.header| {
      assert raw == r.header + raw[|r.header|..];
      HeaderEndStable(r.header, raw[|r.header|..]);
    } else if HeaderEnd(raw).Some? {
      assert r.header == raw + r.header[|raw|..];
      HeaderEndStable(raw, r.header[|raw|..]);
    }
  }

  /** The buffer and what is still to come are the stream of requests. */
  ghost predicate Tracks(s: LoopState, rs: seq<Request>, rest: Bytes) {
    && Consistent(s) && s.alive
    && s.raw + rest == Wires(rs)
  }

  /** The framing of a request with `n` bytes of it in the buffer. */
  function FramingOf(r: Request, n: nat): Framing
    requires n >= |r.header|
  {
    if r.Counted? then Framing(true, Some(|r.body|), false, |r.header|, n - |r.header|)
    else Framing(true, None, true, |r.header|, n - |r.header|)
  }

  /** Once the header of a request is in the buffer, the framing is the request's. */
  lemma FramedOnRequest(s: LoopState, chunk: Bytes, r: Request)
    requires Consistent(s) && r.Good()
    requires var raw := s.raw + chunk;
      && HeaderEnd(raw) == (if |raw| >= |r.header| then Some(|r.header|) else None)
      && (|raw| >= |r.header| ==> r.header <= raw)
    ensures
      var raw := s.raw + chunk;
      var f := Framed(s.framing, raw, |chunk|);
      && (f.headerDone <==> |raw| >= |r.header|)
      && (f.headerDone ==> f == FramingOf(r, |raw|))
  {
    FramedIsConsistent(s, chunk);
    var raw := s.raw + chunk;
    assert |raw| >= |r.header| ==> raw[..|r.header|] == r.header;
    if s.framing.headerDone { HeaderEndStable(s.raw, chunk); }
    hide Find, ContentLength, IsChunked, HeaderEnd;
  }

  /** Cutting a whole request off a part of the stream. */
  lemma TakeRequest(raw: Bytes, rest: Bytes, header: Bytes, body: Bytes, t: Bytes)
    requires raw + rest == header + (body + t)
    ensures |raw| >= |header| ==> header <= raw && raw[|header|..] + rest == body + t
    ensures |raw| >= |header + body| ==>
      var n := |header + body|;
      raw[..n] == header + body && raw[|header|..n] == body && raw[n..] + rest == t
  {
    var all := raw + rest;
    assert all[..|header|] == header && all[|header|..] == body + t;
    assert |raw| >= |header| ==> raw[..|header|] == all[..|header|] && all[|header|..] == raw[|header|..] + rest;
    if |raw| >= |header + body| {
      var n := |header + body|;
      assert all == (header + body) + t;
      assert all[..n] == raw[..n] && all[n..] == raw[n..] + rest;
      assert all[|header|..n] == raw[|header|..n];
    }
  }

  // ----- The end of a chunked body

  lemma FindInPrefix(b: Bytes, v: Bytes, w: Bytes)
    requires Find(b, w).Some?
    ensures Find(b + v, w) == Find(b, w)
  {
    FindStable(b, v, w);
  }

  lemma FirstLineOfTerminal(line: Bytes, y: Bytes)
    requires CR !in line
    ensures TERMINAL <= line + (CRLF + y) ==> line == [48]
  {
    hide Find;
    var w := line + (CRLF + y);
    LineEnds(line, y);
    if TERMINAL <= w {
      assert w == [48] + (CRLF + w[3..]);
      LineEnds([48], w[3..]);
      assert line == w[..1];
    }
  }

  lemma ZeroLine()
    ensures SizeOf([48]) == Some(0)
  {
    PlainLineSays(0);
    SizeOfLine(PlainLine(0), 0);
    assert Format(0, 16) == [48];
  }

  /** A message with chunks does not begin with the terminal chunk. */
  lemma ChunksFirst(ps: seq<Piece>, last: SizeLine)
    requires ps != [] && ps[0].Good()
    ensures !(TERMINAL <= Chunked.Wire(ps, last))
  {
    hide SizeLine.Says, SizeLine.Line, Find, SizeOf, TERMINAL;
    var p, w := ps[0], Chunked.Wire(ps, last);
    var line := p.line.Line();
    SizeOfLine(p.line, |p.data|);
    var y := (p.data + CRLF) + Chunked.Wire(ps[1..], last);
    assert w == line + (CRLF + y);
    FirstLineOfTerminal(line, y);
    ZeroLine();
  }

  /** The loop sees the end of a chunked body exactly when all of it is in the buffer, and there. */
  lemma BodyEndInStream(r: Request, b: Bytes, rest: Bytes, t: Bytes)
    requires r.Coded? && r.Good() && r.ClearOf(t) && b + rest == r.BodyWire() + t
    ensures ChunkedBodyEnd(b) == if |b| >= |r.BodyWire()| then Some(|r.BodyWire()|) else None
  {
    hide Find, SizeLine.Says, SizeLine.Line, ContentLength, IsChunked, HeaderEnd, Chunked.Wire;
    var w := r.BodyWire();
    assert r.pieces != [] ==> r.pieces[0] in r.pieces && r.pieces[0].Good();
    PrefixCases(b, rest, w, t);
    if r.pieces == [] {
      if Find(b, LAST_CHUNK).Some? { FindInPrefix(b, rest, LAST_CHUNK); }
    } else {
      ChunksFirst(r.pieces, r.last);
      if |b| >= |w| {
        FindInPrefix(w, b[|w|..], LAST_CHUNK);
      } else {
        if Find(b, LAST_CHUNK).Some? { FindInPrefix(b, w[|b|..], LAST_CHUNK); }
        if TERMINAL <= b { PrefixTransitive(TERMINAL, b, w); }
      }
    }
  }

  lemma PrefixTransitive(a: Bytes, b: Bytes, c: Bytes)
    ensures a <= b && b <= c ==> a <= c
  {
  }

  lemma PrefixCases(b: Bytes, rest: Bytes, w: Bytes, t: Bytes)
    requires b + rest == w + t
    ensures if |b| >= |w| then w <= b && b == w + b[|w|..] else b <= w && w == b + w[|b|..]
  {
    assert |b| >= |w| ==> (b + rest)[..|w|] == b[..|w|];
    assert |b| < |w| ==> (w + t)[..|b|] == w[..|b|];
  }

  /** What one read does, given the framing. */
  lemma StepWithFraming(s: LoopState, chunk: Bytes, r: Request)
    requires Consistent(s) && s.alive && r.Good()
    requires var raw := s.raw + chunk; var f := Framed(s.framing, raw, |chunk|);
      && (f.headerDone <==> |raw| >= |r.header|)
      && (f.headerDone ==> f == FramingOf(r, |raw|))
    requires var raw, n := s.raw + chunk, |r.Wire()|;
      && (|raw| >= n ==> raw[|r.header|..n] == r.BodyWire())
      && (r.Coded? && |raw| >= |r.header| ==>
            ChunkedBodyEnd(raw[|r.header|..]) == if |raw| >= n then Some(|r.BodyWire()|) else None)
    ensures
      var raw, n := s.raw + chunk, |r.Wire()|;
      var (s1, x) := Step(s, chunk);
      if |raw| >= n then s1 == LoopState(raw[n..], IDLE, true) && x == Some(Extraction(raw[..n], r.Payload()))
      else s1.raw == raw && s1.alive && x.None?
  {
    hide Consistent, Framed, OneShot, ChunkedBodyEnd, Find, Request.Good, Request.BodyWire, Request.Payload;
    var raw := s.raw + chunk;
    var f := Framed(s.framing, raw, |chunk|);
    FramedIsConsistent(s, chunk);
    DecodesToPayload(r);
    DoneWithRequest(raw, r);
    if |raw| >= |r.Wire()| { BodyOfRequest(raw, r); }
  }

  lemma DoneWithRequest(raw: Bytes, r: Request)
    requires |raw| >= |r.header| ==> FramingOf(r, |raw|).bodyStart <= |raw|
    requires r.Coded? && |raw| >= |r.header| ==>
      ChunkedBodyEnd(raw[|r.header|..]) == if |raw| >= |r.Wire()| then Some(|r.BodyWire()|) else None
    ensures |raw| >= |r.header| ==>
      var f := FramingOf(r, |raw|);
      && (BodyDone(f, raw) <==> |raw| >= |r.Wire()|)
      && (BodyDone(f, raw) ==> Consumed(f, raw) == |r.Wire()|)
  {
    hide ChunkedBodyEnd;
  }

  lemma BodyOfRequest(raw: Bytes, r: Request)
    requires |raw| >= |r.Wire()| && raw[|r.header|..|r.Wire()|] == r.BodyWire()
    requires r.Coded? ==> OneShot(r.BodyWire(), 0) == Payload(r.Payload())
    requires
      var f := FramingOf(r, |raw|);
      BodyDone(f, raw) && Consumed(f, raw) == |r.Wire()|
    ensures Body(FramingOf(r, |raw|), raw) == Payload(r.Payload())
  {
    hide ChunkedBodyEnd, OneShot, Chunked.Wire, DataOf;
  }

  lemma DecodesToPayload(r: Request)
    requires r.Good()
    ensures r.Coded? ==> OneShot(r.BodyWire(), 0) == Payload(r.Payload())
  {
    hide OneShot, Find, ContentLength, IsChunked, HeaderEnd, SizeLine.Says, Chunked.Wire, DataOf;
    if r.Coded? { OneShotDecodesWire(r.pieces, r.last); }
  }

  /** One read of a stream of requests: either it completes the first one, or nothing is taken. */
  lemma StepOnRequests(s: LoopState, chunk: Bytes, rs: seq<Request>, rest: Bytes)
    requires Tracks(s, rs, chunk + rest) && chunk != [] && rs != [] && WellFramed(rs)
    ensures
      var (s1, x) := Step(s, chunk);
      && (x.Some? <==> |s.raw + chunk| >= |rs[0].Wire()|)
      && (x.Some? ==> x.value == Extraction(rs[0].Wire(), rs[0].Payload()) && Tracks(s1, rs[1..], rest))
      && (x.None? ==> Tracks(s1, rs, rest))
  {
    hide Consistent, HeaderEnd, Step, Framed, Request.Good, Request.BodyWire, Request.Payload, Request.ClearOf,
      ChunkedBodyEnd, FramingOf;
    var raw, r := s.raw + chunk, rs[0];
    Assoc(s.raw, chunk, rest);
    var t := Wires(rs[1..]);
    Assoc(r.header, r.BodyWire(), t);
    TakeRequest(raw, rest, r.header, r.BodyWire(), t);
    PrefixOfWhole(raw, rest);
    HeaderInPrefix(r, raw, r.BodyWire() + t);
    FramedOnRequest(s, chunk, r);
    StepIsConsistent(s, chunk);
    if r.Coded? && |raw| >= |r.header| { BodyEndInStream(r, raw[|r.header|..], rest, t); }
    StepWithFraming(s, chunk, r);
  }

  lemma PrefixOfWhole(a: Bytes, b: Bytes)
    ensures a <= a + b
  {
  }

  lemma BytesMeanRequests(s: LoopState, chunk: Bytes, rest: Bytes, rs: seq<Request>)
    ensures s.raw + (chunk + rest) == Wires(rs) && chunk != [] ==> rs != []
  {
  }

  /** The extractions are the first requests of the stream, in order, each once and with its own body. */
  ghost predicate FirstOf(xs: seq<Extraction>, rs: seq<Request>) {
    && |xs| <= |rs|
    && forall i :: 0 <= i < |xs| ==> xs[i] == Extraction(rs[i].Wire(), rs[i].Payload())
  }

  lemma FirstOfCons(x: Extraction, xs: seq<Extraction>, rs: seq<Request>)
    requires rs != [] && x == Extraction(rs[0].Wire(), rs[0].Payload()) && FirstOf(xs, rs[1..])
    ensures FirstOf([x] + xs, rs) && |[x] + xs| == 1 + |xs| && rs[1..][|xs|..] == rs[1 + |xs|..]
  {
    hide Request.Wire;
    forall i | 0 < i <= |xs| ensures rs[i] == rs[1..][i - 1] && ([x] + xs)[i] == xs[i - 1] {
    }
  }

  /** One read of a nonempty part of the stream. */
  lemma TakesOneOrNone(s: LoopState, chunk: Bytes, rs: seq<Request>, later: Bytes)
    requires Tracks(s, rs, chunk + later) && chunk != [] && WellFramed(rs)
    ensures Consistent(s) && rs != []
    ensures
      var (s1, x) := Step(s, chunk);
      && Consistent(s1)
      && (x.Some? ==> x.value == Extraction(rs[0].Wire(), rs[0].Payload()) && Tracks(s1, rs[1..], later))
      && (x.None? ==> Tracks(s1, rs, later))
  {
    hide Consistent, Step, Request.Good;
    BytesMeanRequests(s, chunk, later, rs);
    StepIsConsistent(s, chunk);
    StepOnRequests(s, chunk, rs, later);
  }

  /**
   * For a stream of requests, with lengths or chunked, under any split into reads, what is taken off is exactly the
   * first requests in order, each once and with its own body, and the buffer goes on with the request behind them.
   */
  lemma {:induction false} RequestsInOrder(s: LoopState, chunks: seq<Bytes>, rs: seq<Request>, rest: Bytes)
    requires Consistent(s) && Tracks(s, rs, Flatten(chunks) + rest) && WellFramed(rs)
    requires forall c :: c in chunks ==> c != []
    ensures var (xs, end) := Run(s, chunks); FirstOf(xs, rs) && Tracks(end, rs[|xs|..], rest)
    decreases |chunks|
  {
    hide Consistent, Step, Request.Good, Request.Wire, Request.Payload, Request.ClearOf;
    if chunks == [] {
      assert rs[0..] == rs && [] + rest == rest;
    } else {
      hide Tracks, FirstOf;
      var c, later := chunks[0], Flatten(chunks[1..]) + rest;
      Assoc(c, Flatten(chunks[1..]), rest);
      assert c in chunks && (forall d :: d in chunks[1..] ==> d in chunks);
      TakesOneOrNone(s, c, rs, later);
      var (s1, x) := Step(s, c);
      if x.Some? {
        RequestsInOrder(s1, chunks[1..], rs[1..], rest);
        FirstOfCons(x.value, Run(s1, chunks[1..]).0, rs);
      } else {
        RequestsInOrder(s1, chunks[1..], rs, rest);
        assert [] + Run(s1, chunks[1..]).0 == Run(s1, chunks[1..]).0;
      }
    }
  }

  // ----- How many requests

  /** How many of the requests lie completely in the first `n` bytes of the stream. */
  function Complete(rs: seq<Request>, n: nat): (k: nat)
    ensures k <= |rs|
    decreases |rs|
  {
    if rs == [] || |rs[0].Wire()| > n then 0 else 1 + Complete(rs[1..], n - |rs[0].Wire()|)
  }

  lemma {:induction false} CompleteIff(rs: seq<Request>, n: nat, k: nat)
    requires k <= |rs|
    ensures k <= Complete(rs, n) <==> |Wires(rs[..k])| <= n
    decreases k
  {
    hide Request.Wire;
    if k == 0 {
    } else {
      assert rs[..k][0] == rs[0] && rs[..k][1..] == rs[1..][..k - 1];
      if |rs[0].Wire()| <= n { CompleteIff(rs[1..], n - |rs[0].Wire()|, k - 1); }
    }
  }

  lemma {:induction false} WiresSplit(rs: seq<Request>, k: nat)
    requires k <= |rs|
    ensures Wires(rs) == Wires(rs[..k]) + Wires(rs[k..])
    decreases k
  {
    hide Request.Wire;
    if k == 0 {
      assert rs[0..] == rs && [] + Wires(rs) == Wires(rs);
    } else {
      assert rs[..k][0] == rs[0] && rs[..k][1..] == rs[1..][..k - 1] && rs[1..][k - 1..] == rs[k..];
      WiresSplit(rs[1..], k - 1);
      Assoc(rs[0].Wire(), Wires(rs[1..][..k - 1]), Wires(rs[k..]));
    }
  }

  function Min(a: nat, b: nat): nat {
    if a < b then a else b
  }

  /** How many are drained: with each read at most one more, and never more than have arrived. */
  function Drained(rs: seq<Request>, held: nat, chunks: seq<Bytes>): nat
    decreases |chunks|
  {
    if chunks == [] then 0
    else Min(Drained(rs, held, chunks[..|chunks| - 1]) + 1, Complete(rs, held + |Flatten(chunks)|))
  }

  lemma {:induction false} RunSnoc(s: LoopState, chunks: seq<Bytes>, c: Bytes)
    requires Consistent(s)
    ensures
      var (xs, mid) := Run(s, chunks);
      && Consistent(mid)
      && Run(s, chunks + [c]).0 == xs + (if Step(mid, c).1.Some? then [Step(mid, c).1.value] else [])
    decreases |chunks|
  {
    hide Consistent, Step;
    if chunks == [] {
      assert [] + [c] == [c] && [c][1..] == [];
      StepIsConsistent(s, c);
      assert Run(Step(s, c).0, []) == ([], Step(s, c).0);
    } else {
      StepIsConsistent(s, chunks[0]);
      var s1 := Step(s, chunks[0]).0;
      RunSnoc(s1, chunks[1..], c);
      assert (chunks + [c])[0] == chunks[0] && (chunks + [c])[1..] == chunks[1..] + [c];
    }
  }

  lemma FlattenSnoc(chunks: seq<Bytes>, c: Bytes, rest: Bytes)
    ensures Flatten(chunks + [c]) == Flatten(chunks) + c
    ensures Flatten(chunks) + (c + rest) == Flatten(chunks + [c]) + rest
  {
    FlattenAppend(chunks, [c]);
    FlattenOne(c);
    Assoc(Flatten(chunks), c, rest);
  }

  lemma {:induction false} WellFramedDrop(rs: seq<Request>, k: nat)
    requires WellFramed(rs) && k <= |rs|
    ensures WellFramed(rs[k..])
    decreases k
  {
    hide Request.Good, Request.ClearOf, Wires;
    if k == 0 {
      assert rs[0..] == rs;
    } else {
      WellFramedDrop(rs[1..], k - 1);
      assert rs[1..][k - 1..] == rs[k..];
    }
  }

  lemma TracksLength(s: LoopState, rs: seq<Request>, rest: Bytes)
    requires Tracks(s, rs, rest)
    ensures |s.raw| + |rest| == |Wires(rs)|
  {
    assert |s.raw + rest| == |s.raw| + |rest|;
  }

  /** Behind the first `k` requests, the next one is complete exactly if the bytes there hold it. */
  lemma CompleteNext(rs: seq<Request>, k: nat, n: nat, m: nat)
    requires k < |rs| && |Wires(rs[..k])| + m == n
    ensures k <= Complete(rs, n) && (|rs[k].Wire()| <= m <==> k < Complete(rs, n))
  {
    hide Request.Wire, Complete;
    CompleteIff(rs, n, k);
    CompleteIff(rs, n, k + 1);
    var front := rs[..k + 1];
    WiresSplit(front, k);
    assert front[..k] == rs[..k] && front[k..] == [rs[k]];
    OneWire(rs[k]);
  }

  lemma OneWire(r: Request)
    ensures Wires([r]) == r.Wire()
  {
    hide Request.Wire;
    assert [r][1..] == [] && r.Wire() + [] == r.Wire();
  }

  /** A read behind the first `k` requests completes the next one exactly if all its bytes have arrived. */
  lemma NextIsComplete(mid: LoopState, c: Bytes, rs: seq<Request>, k: nat, n: nat, rest: Bytes)
    requires Consistent(mid) && k <= |rs| && Tracks(mid, rs[k..], c + rest) && WellFramed(rs) && c != []
    requires n + |rest| == |Wires(rs)|
    ensures k <= Complete(rs, n) && (Step(mid, c).1.Some? <==> k < Complete(rs, n))
  {
    WellFramedDrop(rs, k);
    TracksLength(mid, rs[k..], c + rest);
    WiresSplit(rs, k);
    BytesMeanRequests(mid, c, rest, rs[k..]);
    hide Consistent, Step, Request.Good, Request.Wire, Complete, Tracks, Wires;
    StepOnRequests(mid, c, rs[k..], rest);
    CompleteNext(rs, k, n, |mid.raw| + |c|);
  }

  /** Exactly how many requests a run drains. */
  lemma {:induction false} RequestsDrained(s: LoopState, chunks: seq<Bytes>, rs: seq<Request>, rest: Bytes)
    requires Consistent(s) && Tracks(s, rs, Flatten(chunks) + rest) && WellFramed(rs)
    requires forall c :: c in chunks ==> c != []
    ensures |Run(s, chunks).0| == Drained(rs, |s.raw|, chunks)
    decreases |chunks|
  {
    hide Consistent, Step, Request.Good, Request.Wire, Request.Payload, Request.ClearOf, Tracks, FirstOf, Complete;
    if chunks == [] {
    } else {
      var init, c := chunks[..|chunks| - 1], chunks[|chunks| - 1];
      assert chunks == init + [c] && c in chunks && (forall d :: d in init ==> d in chunks);
      FlattenSnoc(init, c, rest);
      RequestsDrained(s, init, rs, c + rest);
      RequestsInOrder(s, init, rs, c + rest);
      FirstOfFits(Run(s, init).0, rs);
      RunSnoc(s, init, c);
      TracksLength(s, rs, Flatten(chunks) + rest);
      hide Run, Flatten;
      NextIsComplete(Run(s, init).1, c, rs, |Run(s, init).0|, |s.raw| + |Flatten(chunks)|, rest);
    }
  }

  lemma FirstOfFits(xs: seq<Extraction>, rs: seq<Request>)
    requires FirstOf(xs, rs)
    ensures |xs| <= |rs|
  {
  }

  lemma RequestIsNotEmpty(rs: seq<Request>)
    requires rs != [] && WellFramed(rs)
    ensures Wires(rs) != []
  {
    hide Find, ContentLength;
    assert rs[0].Good();
  }

  /** Requests that arrive together wait: one read drains one of them, and the others need further reads. */
  lemma OneReadServesOne(rs: seq<Request>)
    requires rs != [] && WellFramed(rs)
    ensures
      && Consistent(BEGIN) && |Run(BEGIN, [Wires(rs)]).0| == 1
      && Run(BEGIN, [Wires(rs)]).1.raw == Wires(rs[1..])
  {
    IdleIsConsistent();
    RequestIsNotEmpty(rs);
    var all := Wires(rs);
    FlattenOne(all);
    assert all + [] == all && [] + all == all;
    hide Consistent, Request.Good, Request.Wire, Step, Run;
    RequestsDrained(BEGIN, [all], rs, []);
    RequestsInOrder(BEGIN, [all], rs, []);
    var one: seq<Bytes> := [all];
    assert one[..0] == [];
    assert rs[..|rs|] == rs;
    CompleteIff(rs, |all|, |rs|);
    var end := Run(BEGIN, [all]).1;
    assert end.raw + [] == end.raw;
  }

  lemma OnlyRequest(r: Request)
    requires r.Good()
    ensures Wires([r]) == r.Wire() && r.Wire() != [] && WellFramed([r])
  {
    OneWire(r);
    assert r.Coded? && r.pieces == [] ==> r.BodyWire() == TERMINAL && r.BodyWire() + [] == TERMINAL;
    TerminalAlone();
    hide Find, ContentLength, IsChunked, TERMINAL, Chunked.Wire, SizeLine.Says, LAST_CHUNK;
    assert [r][1..] == [] && WellFramed([]);
  }

  lemma TerminalAlone()
    ensures Find(TERMINAL, LAST_CHUNK).None?
  {
    TooShort(TERMINAL, LAST_CHUNK);
  }

  /** However one request is cut into reads, it is taken off once, with its own body. */
  lemma OneIsServed(r: Request, chunks: seq<Bytes>)
    requires r.Good() && Flatten(chunks) == r.Wire() && forall c :: c in chunks ==> c != []
    ensures Consistent(BEGIN) && Run(BEGIN, chunks).0 == [Extraction(r.Wire(), r.Payload())]
  {
    IdleIsConsistent();
    OnlyRequest(r);
    var rs := [r];
    hide Consistent, Request.Good, Run, Request.Wire, Request.Payload, Wires, WellFramed, Drained;
    assert [] + Flatten(chunks) == Flatten(chunks) + [];
    assert chunks != [];
    OneIsDrained(r, chunks);
    RequestsInOrder(BEGIN, chunks, rs, []);
    RequestsDrained(BEGIN, chunks, rs, []);
  }

  lemma OneIsDrained(r: Request, chunks: seq<Bytes>)
    requires chunks != [] && |Flatten(chunks)| == |r.Wire()|
    ensures Drained([r], 0, chunks) == 1
  {
    hide Request.Wire;
    assert [r][1..] == [];
  }

  /**
   * A request without a length that is not chunked takes whatever is in the buffer with it: it is cut where it
   * ends exactly when nothing follows it there. The header may have come in any number of reads.
   */
  lemma BodylessTakesAll(s: LoopState, chunk: Bytes, header: Bytes, following: Bytes)
    requires HeaderEnd(header) == Some(|header|) && ContentLength(header).None? && !IsChunked(header)
    requires Consistent(s) && s.alive && !s.framing.headerDone && s.raw + chunk == header + following
    ensures Step(s, chunk) == (BEGIN, Some(Extraction(header + following, following)))
    ensures Step(s, chunk).1.value.slice == header <==> following == []
  {
    hide Find, ContentLength, IsChunked;
    var raw := header + following;
    HeaderEndStable(header, following);
    assert raw[..|header|] == header && raw[|header|..] == following && raw[..|raw|] == raw && raw[|raw|..] == [];
    assert raw[|header|..|raw|] == following;
    assert |header + following| == |header| + |following|;
    assert following == [] ==> header + following == header;
  }

  // ----- Chunked requests whose end is missed

  /** One read behind which a whole chunked header is in the buffer. */
  lemma StepOnChunked(s: LoopState, chunk: Bytes, header: Bytes, body: Bytes)
    requires HeaderEnd(header) == Some(|header|) && ContentLength(header).None? && IsChunked(header)
    requires Consistent(s) && s.alive && !s.framing.headerDone && s.raw + chunk == header + body
    ensures
      match ChunkedBodyEnd(body)
      case None => Step(s, chunk).1.None?
      case Some(n) =>
        match OneShot(body[..n], 0)
        case Payload(bytes) => Step(s, chunk).1 == Some(Extraction(header + body[..n], bytes))
        case Malformed => Step(s, chunk).1 == Some(Extraction(header + body[..n], body[..n]))
        case Panics => Step(s, chunk).1.None?
  {
    hide Find, ContentLength, IsChunked, OneShot, ChunkedBodyEnd;
    var raw := header + body;
    HeaderEndStable(header, body);
    assert raw[..|header|] == header && raw[|header|..] == body;
    FramedIsConsistent(s, chunk);
    if ChunkedBodyEnd(body).Some? {
      var n := ChunkedBodyEnd(body).value;
      assert raw[..|header| + n] == header + body[..n] && raw[|header|..|header| + n] == body[..n];
    }
  }

  /**
   * An empty chunked body is decoded as empty, but the request is cut where it ends exactly when no terminal chunk
   * with a line break in front of it follows in the buffer; otherwise everything up to there goes with it.
   */
  lemma EmptyChunkedBody(s: LoopState, chunk: Bytes, header: Bytes, following: Bytes)
    requires HeaderEnd(header) == Some(|header|) && ContentLength(header).None? && IsChunked(header)
    requires Consistent(s) && s.alive && !s.framing.headerDone
    requires s.raw + chunk == header + (TERMINAL + following)
    ensures
      var p := Find(TERMINAL + following, LAST_CHUNK);
      var n := if p.Some? then p.value + 7 else 5;
      && Step(s, chunk).1 == Some(Extraction(header + (TERMINAL + following)[..n], []))
      && (n == 5 <==> p.None?)
  {
    hide Find, ContentLength, IsChunked, HeaderEnd, OneShot, Step, SizeOf, LAST_CHUNK;
    var body := TERMINAL + following;
    StepOnChunked(s, chunk, header, body);
    var n := ChunkedBodyEnd(body).value;
    AtLeastSeven();
    var b := body[..n];
    assert b == [48] + (CRLF + b[3..]) && b[0..] == b && b[0..1] == [48];
    LineEnds([48], b[3..]);
    ZeroLine();
    OneShotAt(b, 0, 1, 0);
  }

  lemma AtLeastSeven()
    ensures |LAST_CHUNK| == 7
  {
  }

  /**
   * A chunked request that arrives alone is served whole exactly if it is one of the streams' requests, although
   * both decoders accept every way to write it.
   */
  lemma ServedWholeIff(r: Request)
    requires r.Coded? && HeaderEnd(r.header) == Some(|r.header|) && ContentLength(r.header).None?
    requires IsChunked(r.header) && (forall p :: p in r.pieces ==> p.Good()) && r.last.Says(0)
    requires |r.BodyWire()| <= USIZE_MAX
    ensures Consistent(BEGIN)
    ensures Step(BEGIN, r.Wire()).1 == Some(Extraction(r.Wire(), r.Payload())) <==> r.Good()
  {
    IdleIsConsistent();
    var w := r.BodyWire();
    EmptyFront(r.Wire());
    hide Consistent, Step, Find, ContentLength, IsChunked, HeaderEnd, OneShot, Chunked.Wire, SizeLine.Says, DataOf;
    StepOnChunked(BEGIN, r.Wire(), r.header, w);
    OneShotDecodesWire(r.pieces, r.last);
    WholeEndIff(r);
    assert w[..|w|] == w;
    if ChunkedBodyEnd(w).Some? { ShorterSlice(r.header, w, ChunkedBodyEnd(w).value); }
  }

  lemma ShorterSlice(header: Bytes, w: Bytes, n: nat)
    requires n <= |w|
    ensures header + w[..n] == header + w ==> n == |w|
  {
    assert |header + w[..n]| == |header| + n;
  }

  lemma WholeEndIff(r: Request)
    requires r.Coded? && (forall p :: p in r.pieces ==> p.Good()) && r.last.Says(0)
    ensures
      var w := r.BodyWire();
      ChunkedBodyEnd(w) == Some(|w|) <==>
      if r.pieces == [] then w == TERMINAL else Find(w, LAST_CHUNK) == Some(|w| - 7)
  {
    hide Find, Chunked.Wire, SizeLine.Says, SizeLine.Line;
    var w := r.BodyWire();
    if r.pieces != [] {
      assert r.pieces[0] in r.pieces && r.pieces[0].Good();
      ChunksFirst(r.pieces, r.last);
    } else {
      EmptyWireEnd(r.last);
      if |w| < 7 { TooShort(w, LAST_CHUNK); }
    }
  }

  lemma TooShort(t: Bytes, w: Bytes)
    requires |t| < |w|
    ensures Find(t, w).None?
  {
  }

  /** An empty message has no line break in front of its last chunk. */
  lemma EmptyWireEnd(last: SizeLine)
    requires last.Says(0)
    ensures var w := Chunked.Wire([], last); |w| >= 7 ==> !(LAST_CHUNK <= w[|w| - 7..])
  {
    hide Find, SizeLine.Says, SizeLine.Line, SizeOf;
    SizeOfLine(last, 0);
    var line, w := last.Line(), Chunked.Wire([], last);
    if |w| >= 7 {
      assert w[|w| - 7..][0] == line[|line| - 3];
    }
  }

  /** A last chunk written otherwise than `0` is never served whole. */
  lemma OddLastChunk(r: Request)
    requires r.Coded? && r.last.Says(0) && r.last.Line() != [48]
    ensures !r.Good()
  {
    hide Find, SizeLine.Says, SizeLine.Line, SizeOf, HeaderEnd, ContentLength, IsChunked;
    SizeOfLine(r.last, 0);
    var line, w := r.last.Line(), r.BodyWire();
    WireTail(r.pieces, r.last);
    OtherTail(w, line);
  }

  lemma OtherTail(w: Bytes, line: Bytes)
    requires CR !in line && line != [48]
    ensures w == line + (CRLF + CRLF) ==> w != TERMINAL
    ensures EndsWith(w, CRLF + (line + (CRLF + CRLF))) ==> Find(w, LAST_CHUNK) != Some(|w| - 7)
  {
    hide Find, EndsWith, LAST_CHUNK;
    var t := CRLF + (line + (CRLF + CRLF));
    OddBytes(line);
    if EndsWith(w, t) {
      LastBytes(w);
      FromTheEnd(w, t, 5);
      if |line| >= 1 { FromTheEnd(w, t, 7); }
    }
    NotTerminal(line);
  }

  lemma NotTerminal(line: Bytes)
    requires line != [48]
    ensures line + (CRLF + CRLF) != TERMINAL
  {
    var w := line + (CRLF + CRLF);
    assert |w| == |line| + 4 && forall i :: 0 <= i < |line| ==> w[i] == line[i];
  }

  lemma OddBytes(line: Bytes)
    requires CR !in line && line != [48]
    ensures var t := CRLF + (line + (CRLF + CRLF)); t[|t| - 5] != 48 || (|line| >= 1 && t[|t| - 7] != CR)
  {
    var n := |line|;
    var t := CRLF + (line + (CRLF + CRLF));
    if n == 0 {
      assert t[1] == LF;
    } else {
      assert t[n + 1] == line[n - 1];
      if n == 2 { assert t[1] == LF; }
      if n >= 3 { assert t[n - 1] == line[n - 3]; }
    }
  }

  predicate EndsWith(w: Bytes, t: Bytes) {
    |w| >= |t| && w[|w| - |t|..] == t
  }

  lemma FromTheEnd(w: Bytes, t: Bytes, n: nat)
    requires EndsWith(w, t) && 0 < n <= |t|
    ensures w[|w| - n] == t[|t| - n]
  {
    assert w[|w| - |t|..][|t| - n] == w[|w| - n];
  }

  lemma LastBytes(w: Bytes)
    ensures Find(w, LAST_CHUNK) == Some(|w| - 7) ==> |w| >= 7 && w[|w| - 7] == CR && w[|w| - 5] == 48
  {
    hide Find;
    if |w| >= 7 { ThreeBytes(w, |w| - 7); }
  }

  lemma ThreeBytes(w: Bytes, n: nat)
    requires n + 3 <= |w|
    ensures LAST_CHUNK <= w[n..] ==> w[n] == CR && w[n + 2] == 48
  {
    assert w[n..][0] == w[n] && w[n..][2] == w[n + 2];
  }

  /** A message ends with its last line and two line breaks, with a line break in front if there are chunks. */
  lemma {:induction false} WireTail(ps: seq<Piece>, last: SizeLine)
    ensures
      var w, t := Chunked.Wire(ps, last), last.Line() + (CRLF + CRLF);
      if ps == [] then w == t else EndsWith(w, CRLF + t)
    decreases |ps|
  {
    hide SizeLine.Line;
    if ps == [] {
    } else {
      var w, t := Chunked.Wire(ps, last), last.Line() + (CRLF + CRLF);
      var rest := Chunked.Wire(ps[1..], last);
      var front := ps[0].line.Line() + (CRLF + (ps[0].data + CRLF));
      assert w == front + rest && front[|front| - 2..] == CRLF;
      WireTail(ps[1..], last);
      if ps[1..] == [] {
        assert w[|w| - |t| - 2..] == front[|front| - 2..] + rest;
      } else {
        assert w[|w| - |t| - 2..] == rest[|rest| - |t| - 2..];
      }
    }
  }
}
