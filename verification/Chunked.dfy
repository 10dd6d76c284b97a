/** Chunked transfer coding (section 4.1 of RFC 7230): the incremental decoder, the one-shot decoder, the writer. */
module Chunked {
  import opened Bytes
  import opened Text

  datatype Phase = ReadingSize | ReadingBody | BodyTrail

  datatype DecoderState = DecoderState(buf: Bytes, remaining: nat, phase: Phase)

  const START := DecoderState([], 0, ReadingSize)

  /** The chunk size on a size line, extensions and surrounding white space dropped. */
  function SizeOf(line: Bytes): Option<nat> {
    if !ValidUtf8(line) then None
    else
      var end := Find(line, [59]);
      ParseUsize(Trim(if end.None? then line else line[..end.value]), 16)
  }

  function Rank(p: Phase): nat {
    match p case ReadingSize => 0 case BodyTrail => 1 case ReadingBody => 2
  }

  /** The decoder's loop: payload that can be emitted, and the state it stops in. */
  function Drain(st: DecoderState): (Bytes, DecoderState)
    decreases |st.buf|, Rank(st.phase)
  {
    match st.phase
    case ReadingSize => (
      match Find(st.buf, CRLF)
      case None => ([], st)
      case Some(p) =>
        match SizeOf(st.buf[..p])
        case None => ([], st)
        case Some(n) =>
          if n == 0 then ([], st.(buf := []))
          else Drain(DecoderState(st.buf[p + 2..], n, ReadingBody))
    )
    case ReadingBody =>
      var take := if st.remaining < |st.buf| then st.remaining else |st.buf|;
      var left := st.remaining - take;
      if left == 0 then
        var (out, end) := Drain(DecoderState(st.buf[take..], 0, BodyTrail));
        (st.buf[..take] + out, end)
      else
        (st.buf[..take], DecoderState(st.buf[take..], left, ReadingBody))
    case BodyTrail =>
      if |st.buf| < 2 then ([], st) else Drain(st.(buf := st.buf[2..], phase := ReadingSize))
  }

  function Pushed(st: DecoderState, raw: Bytes): (Bytes, DecoderState) {
    Drain(st.(buf := st.buf + raw))
  }

  class ChunkedDecoder {
    var buf: Bytes
    var remaining: nat
    var phase: Phase

    function State(): DecoderState
      reads this
    {
      DecoderState(buf, remaining, phase)
    }

    constructor ()
      ensures State() == START
    {
      buf, remaining, phase := [], 0, ReadingSize;
    }

    method Push(raw: Bytes) returns (out: Bytes)
      modifies this
      ensures (out, State()) == Pushed(old(State()), raw)
    {
      hide SizeOf, NoneBefore, Find;
      buf := buf + raw;
      out := [];
      ghost var whole := Drain(State());
      assert [] + whole.0 == whole.0;
      while true
        invariant (out + Drain(State()).0, Drain(State()).1) == whole
        decreases |buf|, Rank(phase)
      {
        assert out + [] == out;
        match phase
        case ReadingSize =>
          var crlf := Find(buf, CRLF);
          if crlf.None? { return; }
          var size := SizeOf(buf[..crlf.value]);
          if size.None? { return; }
          if size.value == 0 {
            buf := [];
            return;
          }
          buf := buf[crlf.value + 2..];
          remaining := size.value;
          phase := ReadingBody;
        case ReadingBody =>
          var take := if remaining < |buf| then remaining else |buf|;
          ghost var rest := Drain(DecoderState(buf[take..], 0, BodyTrail)).0;
          Assoc(out, buf[..take], rest);
          out := out + buf[..take];
          buf := buf[take..];
          remaining := remaining - take;
          if remaining != 0 { return; }
          phase := BodyTrail;
        case BodyTrail =>
          if |buf| < 2 { return; }
          buf := buf[2..];
          phase := ReadingSize;
      }
    }
  }

  // ----- Splitting a push

  /** Draining reaches the terminal chunk. */
  predicate Ends(st: DecoderState)
    decreases |st.buf|, Rank(st.phase)
  {
    match st.phase
    case ReadingSize => (
      match Find(st.buf, CRLF)
      case None => false
      case Some(p) =>
        match SizeOf(st.buf[..p])
        case None => false
        case Some(n) => n == 0 || Ends(DecoderState(st.buf[p + 2..], n, ReadingBody))
    )
    case ReadingBody => st.remaining <= |st.buf| && Ends(DecoderState(st.buf[st.remaining..], 0, BodyTrail))
    case BodyTrail => |st.buf| >= 2 && Ends(st.(buf := st.buf[2..], phase := ReadingSize))
  }

  function More(st: DecoderState, b: Bytes): DecoderState {
    st.(buf := st.buf + b)
  }

  lemma NextLine(st: DecoderState, b: Bytes)
    requires st.phase == ReadingSize && Find(st.buf, CRLF).Some?
    ensures var p := Find(st.buf, CRLF).value; var m := More(st, b).buf;
      Find(m, CRLF) == Some(p) && m[..p] == st.buf[..p] && m[p + 2..] == st.buf[p + 2..] + b
  {
    hide Find;
    FindStable(st.buf, b, CRLF);
    var p := Find(st.buf, CRLF).value;
    var m := st.buf + b;
    assert m[..p] == st.buf[..p];
    assert m[p + 2..] == st.buf[p + 2..] + b;
  }

  /** Bytes discarded behind the terminal size line. */
  function Leftover(st: DecoderState): nat
    requires Ends(st)
    decreases |st.buf|, Rank(st.phase)
  {
    match st.phase
    case ReadingSize =>
      var p := Find(st.buf, CRLF).value;
      var n := SizeOf(st.buf[..p]).value;
      if n == 0 then |st.buf| - p - 2 else Leftover(DecoderState(st.buf[p + 2..], n, ReadingBody))
    case ReadingBody => Leftover(DecoderState(st.buf[st.remaining..], 0, BodyTrail))
    case BodyTrail => Leftover(st.(buf := st.buf[2..], phase := ReadingSize))
  }

  lemma AtSize(st: DecoderState, p: nat, n: nat)
    requires st.phase == ReadingSize && Find(st.buf, CRLF) == Some(p) && SizeOf(st.buf[..p]) == Some(n) && n > 0
    ensures var next := DecoderState(st.buf[p + 2..], n, ReadingBody);
      Drain(st) == Drain(next) && Ends(st) == Ends(next) && (Ends(st) ==> Leftover(st) == Leftover(next))
  {
    hide SizeOf, Find;
  }

  lemma AtBody(st: DecoderState)
    requires st.phase == ReadingBody && st.remaining <= |st.buf|
    ensures var next := DecoderState(st.buf[st.remaining..], 0, BodyTrail);
      && Drain(st) == (st.buf[..st.remaining] + Drain(next).0, Drain(next).1)
      && Ends(st) == Ends(next) && (Ends(st) ==> Leftover(st) == Leftover(next))
  {
    hide SizeOf, Find;
  }

  lemma AtTrail(st: DecoderState)
    requires st.phase == BodyTrail && |st.buf| >= 2
    ensures var next := DecoderState(st.buf[2..], st.remaining, ReadingSize);
      Drain(st) == Drain(next) && Ends(st) == Ends(next) && (Ends(st) ==> Leftover(st) == Leftover(next))
  {
    hide SizeOf, Find;
  }

  lemma TrailWaits(st: DecoderState)
    requires st.phase == BodyTrail && |st.buf| < 2
    ensures Drain(st) == ([], st)
  {
  }

  lemma SizeWaits(st: DecoderState)
    requires st.phase == ReadingSize
    ensures Find(st.buf, CRLF).None? || SizeOf(st.buf[..Find(st.buf, CRLF).value]).None? ==> Drain(st) == ([], st)
    ensures Find(st.buf, CRLF).Some? && SizeOf(st.buf[..Find(st.buf, CRLF).value]) == Some(0) ==> Ends(st)
  {
    hide SizeOf, Find;
  }

  /** A body that is complete is cut off the same way from a longer buffer. */
  lemma WholeBody(st: DecoderState, b: Bytes)
    requires st.phase == ReadingBody && st.remaining <= |st.buf|
    ensures
      var next := DecoderState(st.buf[st.remaining..], 0, BodyTrail);
      && Drain(st) == (st.buf[..st.remaining] + Drain(next).0, Drain(next).1)
      && Drain(More(st, b)) == (st.buf[..st.remaining] + Drain(More(next, b)).0, Drain(More(next, b)).1)
  {
    var m := More(st, b).buf;
    assert m[..st.remaining] == st.buf[..st.remaining];
    assert m[st.remaining..] == st.buf[st.remaining..] + b;
  }

  /** A body that is not complete passes through, and the decoder waits for the rest of it. */
  lemma PartOfBody(st: DecoderState, b: Bytes)
    requires st.phase == ReadingBody && st.remaining > |st.buf|
    ensures
      var next := DecoderState([], st.remaining - |st.buf|, ReadingBody);
      Drain(st) == (st.buf, next) && Drain(More(st, b)) == (st.buf + Drain(More(next, b)).0, Drain(More(next, b)).1)
  {
    var m, n := st.buf + b, st.remaining - |st.buf|;
    assert [] + b == b && st.buf[..|st.buf|] == st.buf && st.buf[|st.buf|..] == [];
    if n <= |b| {
      assert m[..st.remaining] == st.buf + b[..n] && m[st.remaining..] == b[n..];
      Assoc(st.buf, b[..n], Drain(DecoderState(b[n..], 0, BodyTrail)).0);
    } else {
      assert m[|m|..] == [] && b[|b|..] == [] && m[..|m|] == m && b[..|b|] == b;
    }
  }

  /** As long as the terminal chunk is not reached, draining early makes no difference. */
  lemma {:induction false} DrainSplits(st: DecoderState, b: Bytes)
    requires !Ends(st)
    ensures
      var (out1, st1) := Drain(st);
      var (out2, st2) := Drain(More(st1, b));
      Drain(More(st, b)) == (out1 + out2, st2)
    decreases |st.buf|, Rank(st.phase)
  {
    hide SizeOf, Find, Drain, Ends;
    ghost var whole := Drain(More(st, b)).0;
    assert [] + whole == whole;
    match st.phase
    case ReadingSize =>
      SizeWaits(st);
      if Find(st.buf, CRLF).Some? && SizeOf(st.buf[..Find(st.buf, CRLF).value]).Some? {
        var p := Find(st.buf, CRLF).value;
        var n := SizeOf(st.buf[..p]).value;
        NextLine(st, b);
        AtSize(st, p, n);
        AtSize(More(st, b), p, n);
        DrainSplits(DecoderState(st.buf[p + 2..], n, ReadingBody), b);
      }
    case ReadingBody =>
      if st.remaining <= |st.buf| {
        var next := DecoderState(st.buf[st.remaining..], 0, BodyTrail);
        AtBody(st);
        WholeBody(st, b);
        DrainSplits(next, b);
        Assoc(st.buf[..st.remaining], Drain(next).0, Drain(More(Drain(next).1, b)).0);
      } else {
        PartOfBody(st, b);
      }
    case BodyTrail =>
      if |st.buf| >= 2 {
        assert (st.buf + b)[2..] == st.buf[2..] + b;
        AtTrail(st);
        AtTrail(More(st, b));
        DrainSplits(DecoderState(st.buf[2..], st.remaining, ReadingSize), b);
      } else {
        TrailWaits(st);
      }
  }

  lemma EndsMoreBody(st: DecoderState, b: Bytes)
    requires st.phase == ReadingBody && st.remaining <= |st.buf|
    ensures Ends(More(st, b)) == Ends(More(DecoderState(st.buf[st.remaining..], 0, BodyTrail), b))
  {
    assert (st.buf + b)[st.remaining..] == st.buf[st.remaining..] + b;
  }

  /** Once the terminal chunk is there, whatever follows is swallowed. */
  lemma {:induction false} EndSwallows(st: DecoderState, b: Bytes)
    requires Ends(st)
    ensures Ends(More(st, b)) && Drain(More(st, b)) == Drain(st)
    ensures Drain(st).1.buf == [] && Drain(st).1.phase == ReadingSize
    decreases |st.buf|, Rank(st.phase)
  {
    hide SizeOf, Find;
    match st.phase
    case ReadingSize =>
      var p := Find(st.buf, CRLF).value;
      NextLine(st, b);
      var n := SizeOf(st.buf[..p]).value;
      if n > 0 { EndSwallows(DecoderState(st.buf[p + 2..], n, ReadingBody), b); }
    case ReadingBody =>
      WholeBody(st, b);
      EndsMoreBody(st, b);
      EndSwallows(DecoderState(st.buf[st.remaining..], 0, BodyTrail), b);
    case BodyTrail =>
      assert (st.buf + b)[2..] == st.buf[2..] + b;
      EndSwallows(st.(buf := st.buf[2..], phase := ReadingSize), b);
  }

  lemma {:induction false} LeftoverGrows(st: DecoderState, b: Bytes)
    requires Ends(st) && Ends(More(st, b))
    ensures Leftover(More(st, b)) == Leftover(st) + |b|
    decreases |st.buf|, Rank(st.phase)
  {
    hide SizeOf, Find;
    match st.phase
    case ReadingSize =>
      var p := Find(st.buf, CRLF).value;
      NextLine(st, b);
      var n := SizeOf(st.buf[..p]).value;
      if n > 0 { LeftoverGrows(DecoderState(st.buf[p + 2..], n, ReadingBody), b); }
    case ReadingBody =>
      assert (st.buf + b)[st.remaining..] == st.buf[st.remaining..] + b;
      LeftoverGrows(DecoderState(st.buf[st.remaining..], 0, BodyTrail), b);
    case BodyTrail =>
      assert (st.buf + b)[2..] == st.buf[2..] + b;
      LeftoverGrows(st.(buf := st.buf[2..], phase := ReadingSize), b);
  }

  /** `b` opens with a size line of zero. */
  predicate OpensTerminal(b: Bytes) {
    Find(b, CRLF).Some? && SizeOf(b[..Find(b, CRLF).value]) == Some(0)
  }

  /** What one push of `a` and one of `b` give together. */
  function PushedTwice(st: DecoderState, a: Bytes, b: Bytes): (Bytes, DecoderState) {
    var (out1, st1) := Pushed(st, a);
    var (out2, st2) := Pushed(st1, b);
    (out1 + out2, st2)
  }

  /**
   * Two pushes agree with one push of both exactly when the first does not reach the terminal chunk, or what
   * follows is nothing or a terminal chunk again.
   */
  lemma PushSplitsIff(st: DecoderState, a: Bytes, b: Bytes)
    ensures PushedTwice(st, a, b) == Pushed(st, a + b) <==> !Ends(More(st, a)) || b == [] || OpensTerminal(b)
  {
    hide SizeOf, Find;
    Assoc(st.buf, a, b);
    if !Ends(More(st, a)) {
      DrainSplits(More(st, a), b);
    } else {
      EndSwallows(More(st, a), b);
      AfterTheEnd(Drain(More(st, a)).1, b);
      var (out1, out2) := (Pushed(st, a).0, Pushed(Pushed(st, a).1, b).0);
      assert out1 + out2 == out1 ==> |out2| == 0;
    }
  }

  /** A decoder that has seen the end treats more bytes as a new message. */
  lemma AfterTheEnd(st: DecoderState, b: Bytes)
    requires st.buf == [] && st.phase == ReadingSize
    ensures Pushed(st, b) == ([], st) <==> b == [] || OpensTerminal(b)
  {
    hide SizeOf, Find;
    assert [] + b == b;
    if Find(b, CRLF).None? {
      NoLineInNothing();
    } else if SizeOf(b[..Find(b, CRLF).value]).Some? && SizeOf(b[..Find(b, CRLF).value]) != Some(0) {
      var n := SizeOf(b[..Find(b, CRLF).value]).value;
      BodyShows(DecoderState(b[Find(b, CRLF).value + 2..], n, ReadingBody));
    }
  }

  lemma NoLineInNothing()
    ensures Find([], CRLF).None?
  {
  }

  lemma BodyShows(st: DecoderState)
    requires st.phase == ReadingBody && st.remaining > 0
    ensures Drain(st).0 != [] || Drain(st).1.phase == ReadingBody
  {
  }

  lemma {:induction false} LeftoverFits(st: DecoderState)
    requires Ends(st)
    ensures Leftover(st) <= |st.buf|
    decreases |st.buf|, Rank(st.phase)
  {
    hide SizeOf, Find;
    match st.phase
    case ReadingSize =>
      var p := Find(st.buf, CRLF).value;
      var n := SizeOf(st.buf[..p]).value;
      if n > 0 { LeftoverFits(DecoderState(st.buf[p + 2..], n, ReadingBody)); }
    case ReadingBody => LeftoverFits(DecoderState(st.buf[st.remaining..], 0, BodyTrail));
    case BodyTrail => LeftoverFits(st.(buf := st.buf[2..], phase := ReadingSize));
  }

  // ----- The writer

  const TERMINAL: Bytes := [48, 13, 10, 13, 10]

  function Chunk(data: Bytes): Bytes {
    Format(|data|, 16) + (CRLF + (data + CRLF))
  }

  function Encode(chunks: seq<Bytes>): Bytes {
    if chunks == [] then TERMINAL else Chunk(chunks[0]) + Encode(chunks[1..])
  }

  /** A line without CR ends at the CRLF behind it. */
  lemma LineEnds(line: Bytes, rest: Bytes)
    requires CR !in line
    ensures Find(line + (CRLF + rest), CRLF) == Some(|line|)
  {
    hide Find;
    var t := line + (CRLF + rest);
    assert t[|line|..] == CRLF + rest;
    forall j | 0 <= j < |line| ensures !(CRLF <= t[j..]) {
      assert t[j..][0] == line[j] && line[j] in line;
    }
    FindIs(t, CRLF, |line|);
  }

  /**
   * A size line as any writer may put it: the size in hexadecimal with letters of either case behind zeros, blanks
   * around it, and extensions.
   */
  datatype SizeLine = SizeLine(front: Bytes, zeros: nat, digits: Bytes, back: Bytes, extension: Bytes)
  {
    predicate Says(n: nat) {
      && Blank(front) && Blank(back) && Spells(digits, n, 16)
      && (extension == [] || (extension[0] == 59 && CR !in extension && ValidUtf8(extension)))
    }

    function Size(): Bytes {
      front + ((Zeros(zeros) + digits) + back)
    }

    function Line(): Bytes {
      Size() + extension
    }
  }

  /** The size part of a line is ASCII without separators, and trims to the digits. */
  lemma SizePart(l: SizeLine, n: nat)
    requires l.Says(n)
    ensures Ascii(l.Size()) && CR !in l.Size() && 59 !in l.Size() && Trim(l.Size()) == Zeros(l.zeros) + l.digits
  {
    hide Trim, Spells;
    SpelledDigits(l.digits, n, 16);
    var number := Zeros(l.zeros) + l.digits;
    assert forall b :: b in number ==> b in Zeros(l.zeros) || b in l.digits;
    assert forall b :: b in l.Size() ==> b in l.front || b in number || b in l.back;
    assert number[0] in number && number[|number| - 1] in number;
    TrimsBlanks(l.front, number, l.back);
  }

  /** Every such line is read as its size and ends at its CRLF. */
  lemma SizeOfLine(l: SizeLine, n: nat)
    requires l.Says(n) && n <= USIZE_MAX
    ensures SizeOf(l.Line()) == Some(n) && CR !in l.Line()
  {
    hide Trim, Spells, ValidUtf8, ParseUsize, Find, Ascii;
    SizePart(l, n);
    var size := l.Size();
    AsciiIsUtf8(size);
    EmptyFront(Zeros(l.zeros) + l.digits);
    ParseOfSpelling(false, l.zeros, l.digits, n, 16);
    if l.extension == [] {
      assert l.Line() == size;
      NoSingle(size, 59);
    } else {
      Utf8Concat(size, l.extension);
      assert l.extension == [59] + l.extension[1..];
      SingleAt(size, 59, l.extension[1..]);
      assert l.Line()[..|size|] == size;
    }
  }

  /** What stands in front of the first semicolon, if there is one. */
  ghost predicate SizePartOf(line: Bytes, size: Bytes, extension: Bytes) {
    line == size + extension && 59 !in size && (extension == [] || extension[0] == 59)
  }

  lemma SizePartIs(line: Bytes, size: Bytes, extension: Bytes)
    requires SizePartOf(line, size, extension)
    ensures Find(line, [59]) == if extension == [] then None else Some(|size|)
  {
    hide Find;
    if extension == [] {
      assert line == size;
      NoSingle(size, 59);
    } else {
      assert extension == [59] + extension[1..];
      SingleAt(size, 59, extension[1..]);
    }
  }

  lemma SizeCut(line: Bytes, m: nat)
    requires m <= |line| && 59 !in line[..m] && (m < |line| ==> line[m] == 59)
    ensures SizePartOf(line, line[..m], line[m..])
  {
  }

  ghost predicate HasSize(line: Bytes, size: Bytes, extension: Bytes, n: nat) {
    SizePartOf(line, size, extension) && ParseUsize(Trim(size), 16) == Some(n)
  }

  /** Exactly the lines of UTF-8 text whose part in front of the first semicolon trims to a number have a size. */
  lemma SizeIff(line: Bytes, n: nat)
    ensures SizeOf(line) == Some(n) <==> ValidUtf8(line) && exists size, extension :: HasSize(line, size, extension, n)
  {
    hide ValidUtf8, ParseUsize, Trim, Find;
    forall size, extension | HasSize(line, size, extension, n)
      ensures SizeOf(line) == if ValidUtf8(line) then Some(n) else None
    {
      SizePartIs(line, size, extension);
      assert extension == [] ==> size == line;
      assert extension != [] ==> line[..|size|] == size;
    }
    FoundByte(line, 59);
    assert line[..|line|] == line;
    var p := Find(line, [59]);
    var m := if p.None? then |line| else p.value;
    SizeCut(line, m);
    assert SizeOf(line) == Some(n) ==> HasSize(line, line[..m], line[m..], n);
  }

  /** The line the proxy itself writes. */
  function PlainLine(n: nat): SizeLine {
    SizeLine([], 0, Format(n, 16), [], [])
  }

  lemma PlainLineSays(n: nat)
    ensures PlainLine(n).Says(n) && PlainLine(n).Line() == Format(n, 16)
  {
    assert [] + (([] + Format(n, 16)) + []) + [] == Format(n, 16);
  }

  datatype Piece = Piece(line: SizeLine, data: Bytes)
  {
    predicate Good() {
      line.Says(|data|) && 0 < |data| <= USIZE_MAX
    }
  }

  /** A message as any writer may put it: chunks, and a last one of size zero. */
  function Wire(ps: seq<Piece>, last: SizeLine): Bytes
    decreases |ps|
  {
    if ps == [] then last.Line() + (CRLF + CRLF)
    else (ps[0].line.Line() + (CRLF + (ps[0].data + CRLF))) + Wire(ps[1..], last)
  }

  function DataOf(ps: seq<Piece>): Bytes
    decreases |ps|
  {
    if ps == [] then [] else ps[0].data + DataOf(ps[1..])
  }

  lemma OneChunk(line: Bytes, data: Bytes, y: Bytes, r: nat)
    requires 0 < |data| <= USIZE_MAX && CR !in line && SizeOf(line) == Some(|data|)
    ensures
      var st := DecoderState((line + (CRLF + (data + CRLF))) + y, r, ReadingSize);
      var next := DecoderState(y, 0, ReadingSize);
      Drain(st) == (data + Drain(next).0, Drain(next).1) && (Ends(st) <==> Ends(next))
      && (Ends(st) ==> Leftover(st) == Leftover(next))
  {
    hide SizeOf, Find, Drain, Ends, Leftover;
    var body := data + (CRLF + y);
    var buf := (line + (CRLF + (data + CRLF))) + y;
    assert buf == line + (CRLF + body);
    LineEnds(line, body);
    assert buf[..|line|] == line && buf[|line| + 2..] == body;
    AtSize(DecoderState(buf, r, ReadingSize), |line|, |data|);
    assert body[..|data|] == data && body[|data|..] == CRLF + y;
    AtBody(DecoderState(body, |data|, ReadingBody));
    assert (CRLF + y)[2..] == y;
    AtTrail(DecoderState(CRLF + y, 0, BodyTrail));
  }

  /** A message drains to its payload and stops two bytes before its end. */
  lemma {:induction false} WireDrains(ps: seq<Piece>, last: SizeLine, r: nat)
    requires (forall p :: p in ps ==> p.Good()) && last.Says(0)
    ensures var st := DecoderState(Wire(ps, last), r, ReadingSize);
      Drain(st).0 == DataOf(ps) && Ends(st) && Leftover(st) == 2
    decreases |ps|
  {
    hide SizeOf, Find, SizeLine.Says, SizeLine.Line;
    if ps == [] {
      LastDrains(last, r);
    } else {
      hide Drain, Ends, Leftover;
      assert ps[0] in ps && ps[0].Good();
      SizeOfLine(ps[0].line, |ps[0].data|);
      OneChunk(ps[0].line.Line(), ps[0].data, Wire(ps[1..], last), r);
      WireDrains(ps[1..], last, 0);
    }
  }

  lemma LastDrains(last: SizeLine, r: nat)
    requires last.Says(0)
    ensures var st := DecoderState(last.Line() + (CRLF + CRLF), r, ReadingSize);
      Drain(st).0 == [] && Ends(st) && Leftover(st) == 2
  {
    hide SizeOf, Find, SizeLine.Says, SizeLine.Line;
    SizeOfLine(last, 0);
    LineEnds(last.Line(), CRLF);
    assert (last.Line() + (CRLF + CRLF))[..|last.Line()|] == last.Line();
  }

  /** The proxy's own messages are such messages. */
  function PlainPieces(chunks: seq<Bytes>): seq<Piece> {
    if chunks == [] then [] else [Piece(PlainLine(|chunks[0]|), chunks[0])] + PlainPieces(chunks[1..])
  }

  lemma {:induction false} EncodeIsWire(chunks: seq<Bytes>)
    requires forall c :: c in chunks ==> 0 < |c| <= USIZE_MAX
    ensures forall p :: p in PlainPieces(chunks) ==> p.Good()
    ensures Encode(chunks) == Wire(PlainPieces(chunks), PlainLine(0)) && DataOf(PlainPieces(chunks)) == Flatten(chunks)
    decreases |chunks|
  {
    hide SizeLine.Says, SizeLine.Line, PlainLine;
    if chunks == [] {
      PlainLineSays(0);
      assert Format(0, 16) == [48] && TERMINAL == [48] + (CRLF + CRLF);
    } else {
      var p := Piece(PlainLine(|chunks[0]|), chunks[0]);
      PlainLineSays(|chunks[0]|);
      EncodeIsWire(chunks[1..]);
      assert PlainPieces(chunks)[1..] == PlainPieces(chunks[1..]);
    }
  }

  /** An encoded message drains to its payload and stops two bytes before its end. */
  lemma EncodedDrains(chunks: seq<Bytes>, r: nat)
    requires forall c :: c in chunks ==> 0 < |c| <= USIZE_MAX
    ensures var st := DecoderState(Encode(chunks), r, ReadingSize);
      Drain(st).0 == Flatten(chunks) && Ends(st) && Leftover(st) == 2
  {
    hide Drain, Ends, Leftover, Encode, Wire, PlainPieces, DataOf, SizeLine.Says;
    PlainLineSays(0);
    EncodeIsWire(chunks);
    WireDrains(PlainPieces(chunks), PlainLine(0), r);
  }

  // ----- Any split of the wire

  function PushAll(st: DecoderState, pushes: seq<Bytes>): (Bytes, DecoderState)
    decreases |pushes|
  {
    if pushes == [] then ([], st)
    else
      var (out, st1) := Pushed(st, pushes[0]);
      var (rest, end) := PushAll(st1, pushes[1..]);
      (out + rest, end)
  }

  /** The decoder looks at a size line that is no size. */
  predicate AtBadSize(st: DecoderState) {
    st.phase == ReadingSize && Find(st.buf, CRLF).Some? && SizeOf(st.buf[..Find(st.buf, CRLF).value]).None?
  }

  lemma BadSizeStays(st: DecoderState, b: Bytes)
    requires AtBadSize(st)
    ensures AtBadSize(More(st, b)) && Pushed(st, b) == ([], More(st, b))
  {
    hide SizeOf, Find, Drain;
    NextLine(st, b);
    SizeWaits(More(st, b));
  }

  /** A bad size line stops the decoder for good: whatever is pushed, nothing comes out and everything is kept. */
  lemma {:induction false} BadSizeStopsForGood(st: DecoderState, pushes: seq<Bytes>)
    requires AtBadSize(st)
    ensures PushAll(st, pushes) == ([], More(st, Flatten(pushes)))
    decreases |pushes|
  {
    hide AtBadSize, Pushed;
    if pushes == [] {
      assert st.buf + [] == st.buf;
    } else {
      BadSizeStays(st, pushes[0]);
      BadSizeStopsForGood(More(st, pushes[0]), pushes[1..]);
      assert PushAll(st, pushes).0 == [] + PushAll(More(st, pushes[0]), pushes[1..]).0;
      Assoc(st.buf, pushes[0], Flatten(pushes[1..]));
    }
  }

  lemma DrainedIsStable(st: DecoderState)
    requires !Ends(st)
    ensures Drain(Drain(st).1) == ([], Drain(st).1)
  {
    hide Drain, Ends;
    assert st.buf + [] == st.buf && Drain(st).1.buf + [] == Drain(st).1.buf;
    DrainSplits(st, []);
    var a, b := Drain(st).0, Drain(Drain(st).1).0;
    assert |a + b| == |a| + |b|;
  }

  lemma DrainedHasNotEnded(st: DecoderState)
    requires Drain(st) == ([], st)
    ensures !Ends(st)
  {
    hide SizeOf, Find, Drain;
    NoLineInNothing();
    if Ends(st) { EndSwallows(st, []); }
  }

  /** What is left of the final CRLF produces nothing. */
  lemma {:induction false} TrailIsQuiet(st: DecoderState, pushes: seq<Bytes>, k: nat)
    requires st.phase == ReadingSize && k <= 2 && st.buf + Flatten(pushes) == CRLF[k..]
    ensures PushAll(st, pushes).0 == []
    decreases |pushes|
  {
    hide SizeOf, Find;
    if pushes == [] {
    } else {
      var b, rest := st.buf + pushes[0], Flatten(pushes[1..]);
      assert b + rest == CRLF[k..];
      assert |b| == 2 ==> b == CRLF;
      QuietBuffer(b, st.remaining);
      TrailIsQuiet(DecoderState(b, st.remaining, ReadingSize), pushes[1..], k);
    }
  }

  lemma NotASize()
    ensures SizeOf([]).None?
  {
  }

  lemma QuietBuffer(b: Bytes, r: nat)
    requires b == CRLF || |b| < 2
    ensures Drain(DecoderState(b, r, ReadingSize)) == ([], DecoderState(b, r, ReadingSize))
  {
    hide SizeOf, Find;
    NotASize();
    assert [] + (CRLF + []) == CRLF;
    LineEnds([], []);
    assert b[..0] == [];
  }

  /** A wire image with nothing behind its final CRLF gives the same payload however it is cut. */
  lemma {:induction false} AnySplit(st: DecoderState, pushes: seq<Bytes>)
    requires Drain(st) == ([], st)
    requires
      var m := More(st, Flatten(pushes));
      Ends(m) && Leftover(m) == 2 && |m.buf| >= 2 && m.buf[|m.buf| - 2..] == CRLF
    ensures PushAll(st, pushes).0 == Drain(More(st, Flatten(pushes))).0
    decreases |pushes|
  {
    hide SizeOf, Find, Drain, Ends, Leftover;
    if pushes == [] {
      assert More(st, Flatten(pushes)) == st;
      DrainedHasNotEnded(st);
    } else {
      var a, c := pushes[0], Flatten(pushes[1..]);
      var m := More(st, a);
      assert Flatten(pushes) == a + c;
      Assoc(st.buf, a, c);
      assert More(st, Flatten(pushes)) == More(m, c);
      if Ends(m) {
        EndSwallows(m, c);
        LeftoverGrows(m, c);
        var all := More(m, c).buf;
        assert |c| <= 2 && c == all[|all| - |c|..] == CRLF[2 - |c|..];
        assert [] + c == c;
        TrailIsQuiet(Drain(m).1, pushes[1..], 2 - |c|);
        assert Drain(m).0 + [] == Drain(m).0;
      } else {
        DrainSplits(m, c);
        DrainedIsStable(m);
        var st1 := Drain(m).1;
        SplitKeepsEnd(m, c);
        LeftoverFits(More(st1, c));
        AnySplit(st1, pushes[1..]);
      }
    }
  }

  ghost predicate SameEnd(a: DecoderState, b: DecoderState) {
    && Ends(a) && Ends(b) && Leftover(a) == Leftover(b)
    && |b.buf| <= |a.buf| && b.buf == a.buf[|a.buf| - |b.buf|..]
  }

  lemma SameEndTransitive(a: DecoderState, b: DecoderState, c: DecoderState)
    requires SameEnd(b, c) && Ends(a) && Leftover(a) == Leftover(b)
    requires |b.buf| <= |a.buf| && b.buf == a.buf[|a.buf| - |b.buf|..]
    ensures SameEnd(a, c)
  {
    hide Ends, Leftover;
    assert c.buf == a.buf[|a.buf| - |b.buf|..][|b.buf| - |c.buf|..];
  }

  /** Draining early changes neither whether the end is reached nor what is left behind it. */
  lemma {:induction false} SplitKeepsEnd(st: DecoderState, c: Bytes)
    requires !Ends(st) && Ends(More(st, c))
    ensures SameEnd(More(st, c), More(Drain(st).1, c))
    decreases |st.buf|, Rank(st.phase)
  {
    hide SizeOf, Find, Ends, Leftover, Drain, SameEnd;
    match st.phase
    case ReadingSize => SplitKeepsEndAtSize(st, c);
    case ReadingBody =>
      if st.remaining <= |st.buf| {
        var next := DecoderState(st.buf[st.remaining..], 0, BodyTrail);
        assert (st.buf + c)[st.remaining..] == st.buf[st.remaining..] + c;
        AtBody(st);
        AtBody(More(st, c));
        SplitKeepsEnd(next, c);
        SameEndTransitive(More(st, c), More(next, c), More(Drain(next).1, c));
      } else {
        SplitKeepsEndInBody(st, c);
      }
    case BodyTrail =>
      if |st.buf| >= 2 {
        var next := DecoderState(st.buf[2..], st.remaining, ReadingSize);
        assert (st.buf + c)[2..] == st.buf[2..] + c;
        AtTrail(st);
        AtTrail(More(st, c));
        SplitKeepsEnd(next, c);
        SameEndTransitive(More(st, c), More(next, c), More(Drain(next).1, c));
      } else {
        TrailWaits(st);
        NothingDrained(st, c);
      }
  }

  lemma NothingDrained(st: DecoderState, c: Bytes)
    requires Drain(st).1 == st && Ends(More(st, c))
    ensures SameEnd(More(st, c), More(Drain(st).1, c))
  {
    hide Ends, Leftover, Drain;
  }

  lemma {:induction false} SplitKeepsEndAtSize(st: DecoderState, c: Bytes)
    requires st.phase == ReadingSize && !Ends(st) && Ends(More(st, c))
    ensures SameEnd(More(st, c), More(Drain(st).1, c))
    decreases |st.buf|, 0, 0
  {
    hide SizeOf, Find, Leftover, SameEnd;
    if Find(st.buf, CRLF).Some? && SizeOf(st.buf[..Find(st.buf, CRLF).value]).Some? {
      var p := Find(st.buf, CRLF).value;
      var n := SizeOf(st.buf[..p]).value;
      var next := DecoderState(st.buf[p + 2..], n, ReadingBody);
      NextLine(st, c);
      AtSize(st, p, n);
      AtSize(More(st, c), p, n);
      hide Ends, Drain;
      SplitKeepsEnd(next, c);
      SameEndTransitive(More(st, c), More(next, c), More(Drain(next).1, c));
    } else {
      NothingDrained(st, c);
    }
  }

  lemma SplitKeepsEndInBody(st: DecoderState, c: Bytes)
    requires st.phase == ReadingBody && st.remaining > |st.buf| && Ends(More(st, c))
    ensures SameEnd(More(st, c), More(Drain(st).1, c))
  {
    hide SizeOf, Find;
    PartOfBody(st, c);
    var next := DecoderState([], st.remaining - |st.buf|, ReadingBody);
    assert (st.buf + c)[st.remaining..] == ([] + c)[next.remaining..];
    AtBody(More(st, c));
    AtBody(More(next, c));
  }

  lemma {:induction false} WireEnd(ps: seq<Piece>, last: SizeLine)
    ensures |Wire(ps, last)| >= 2 && Wire(ps, last)[|Wire(ps, last)| - 2..] == CRLF
    decreases |ps|
  {
    hide SizeLine.Line;
    if ps == [] {
    } else {
      WireEnd(ps[1..], last);
    }
  }

  /** However a message is written and cut into reads, the decoder emits exactly its payload. */
  lemma EveryCutOfWireDecodes(ps: seq<Piece>, last: SizeLine, pushes: seq<Bytes>)
    requires (forall p :: p in ps ==> p.Good()) && last.Says(0) && Flatten(pushes) == Wire(ps, last)
    ensures PushAll(START, pushes).0 == DataOf(ps)
  {
    hide SizeOf, Find, Drain, Ends, Leftover, PushAll, Wire, SizeLine.Says;
    WireDrains(ps, last, 0);
    WireEnd(ps, last);
    EmptyFront(Wire(ps, last));
    StartIsDrained();
    AnySplit(START, pushes);
  }

  /** However a written message is cut into reads, the decoder emits exactly its payload. */
  lemma EveryCutDecodes(chunks: seq<Bytes>, pushes: seq<Bytes>)
    requires forall c :: c in chunks ==> 0 < |c| <= USIZE_MAX
    requires Flatten(pushes) == Encode(chunks)
    ensures PushAll(START, pushes).0 == Flatten(chunks)
  {
    hide Encode, Wire, PlainPieces, DataOf, SizeLine.Says, PushAll;
    PlainLineSays(0);
    EncodeIsWire(chunks);
    EveryCutOfWireDecodes(PlainPieces(chunks), PlainLine(0), pushes);
  }

  lemma StartIsDrained()
    ensures Drain(START) == ([], START)
  {
  }

  // ----- The one-shot decoder

  datatype Decoded = Payload(bytes: Bytes) | Malformed | Panics

  function Prepend(data: Bytes, rest: Decoded): Decoded {
    if rest.Payload? then Payload(data + rest.bytes) else rest
  }

  /**
   * Decoding from `pos` on. Stepping past the end is a panic, and so is a size that overflows the position: whether
   * the addition is checked or wraps, the slice that follows it fails.
   */
  function OneShot(data: Bytes, pos: nat): Decoded
    decreases if pos <= |data| then |data| - pos + 1 else 0
  {
    if pos > |data| then Panics
    else
      match Find(data[pos..], CRLF)
      case None => Malformed
      case Some(p) =>
        match SizeOf(data[pos..pos + p])
        case None => Malformed
        case Some(n) =>
          var start := pos + p + 2;
          if n == 0 then Payload([])
          else if start + n > USIZE_MAX then Panics
          else if start + n > |data| then Malformed
          else Prepend(data[start..start + n], OneShot(data, start + n + 2))
  }

  /** One turn of the decoding loop. */
  lemma OneShotAt(data: Bytes, pos: nat, p: nat, n: nat)
    requires pos <= |data| && Find(data[pos..], CRLF) == Some(p) && SizeOf(data[pos..pos + p]) == Some(n)
    ensures var start := pos + p + 2;
      OneShot(data, pos) ==
      if n == 0 then Payload([])
      else if start + n > USIZE_MAX then Panics
      else if start + n > |data| then Malformed
      else Prepend(data[start..start + n], OneShot(data, start + n + 2))
  {
    hide SizeOf, Find;
  }

  lemma OneShotStops(data: Bytes, pos: nat)
    ensures pos > |data| ==> OneShot(data, pos) == Panics
    ensures pos <= |data| && Find(data[pos..], CRLF).None? ==> OneShot(data, pos) == Malformed
    ensures
      (pos <= |data| && Find(data[pos..], CRLF).Some? && SizeOf(data[pos..pos + Find(data[pos..], CRLF).value]).None?)
      ==> OneShot(data, pos) == Malformed
  {
    hide SizeOf, Find;
  }

  lemma PrependTwice(a: Bytes, b: Bytes, rest: Decoded)
    ensures Prepend(a, Prepend(b, rest)) == Prepend(a + b, rest)
  {
    if rest.Payload? { Assoc(a, b, rest.bytes); }
  }

  method DecodeChunkedBody(data: Bytes) returns (r: Decoded)
    ensures r == OneShot(data, 0)
  {
    hide SizeOf, Find, OneShot;
    var out: Bytes, pos: nat := [], 0;
    assert OneShot(data, 0).Payload? ==> [] + OneShot(data, 0).bytes == OneShot(data, 0).bytes;
    while true
      invariant Prepend(out, OneShot(data, pos)) == OneShot(data, 0)
      decreases if pos <= |data| then |data| - pos + 1 else 0
    {
      OneShotStops(data, pos);
      if pos > |data| { return Panics; }
      var crlf := Find(data[pos..], CRLF);
      if crlf.None? { return Malformed; }
      var size := SizeOf(data[pos..pos + crlf.value]);
      if size.None? { return Malformed; }
      OneShotAt(data, pos, crlf.value, size.value);
      pos := pos + crlf.value + 2;
      if size.value == 0 { break; }
      if pos + size.value > USIZE_MAX { return Panics; }
      if pos + size.value > |data| { return Malformed; }
      PrependTwice(out, data[pos..pos + size.value], OneShot(data, pos + size.value + 2));
      out := out + data[pos..pos + size.value];
      pos := pos + size.value + 2;
    }
    assert out + [] == out;
    return Payload(out);
  }

  /** The one-shot decoder succeeds exactly when the incremental one reaches the end, with its payload. */
  lemma {:induction false} OneShotIsDrain(data: Bytes, pos: nat, r: nat)
    requires pos <= |data| <= USIZE_MAX
    ensures var st := DecoderState(data[pos..], r, ReadingSize);
      && (OneShot(data, pos).Payload? <==> Ends(st))
      && (Ends(st) ==> OneShot(data, pos).bytes == Drain(st).0)
    decreases |data| - pos
  {
    hide SizeOf, Find, OneShot, Drain, Ends;
    var buf := data[pos..];
    var st := DecoderState(buf, r, ReadingSize);
    OneShotStops(data, pos);
    NoSizeNoEnd(st);
    if Find(buf, CRLF).None? {
    } else {
      var p := Find(buf, CRLF).value;
      assert buf[..p] == data[pos..pos + p] && buf[p + 2..] == data[pos + p + 2..];
      if SizeOf(buf[..p]).Some? {
        var n := SizeOf(buf[..p]).value;
        OneShotAt(data, pos, p, n);
        if n == 0 {
          TerminalDrains(st, p);
        } else {
          AtSize(st, p, n);
          OneShotBody(data, pos + p + 2, n);
          var end := pos + p + 2 + n + 2;
          if end <= |data| { OneShotIsDrain(data, end, 0); }
          OneShotStops(data, end);
        }
      }
    }
  }

  lemma TerminalDrains(st: DecoderState, p: nat)
    requires st.phase == ReadingSize && Find(st.buf, CRLF) == Some(p) && SizeOf(st.buf[..p]) == Some(0)
    ensures Drain(st).0 == [] && Ends(st)
  {
    hide SizeOf, Find;
  }

  lemma NoSizeNoEnd(st: DecoderState)
    requires st.phase == ReadingSize
    ensures Find(st.buf, CRLF).None? || SizeOf(st.buf[..Find(st.buf, CRLF).value]).None? ==> !Ends(st)
  {
    hide SizeOf, Find;
  }

  /** A chunk body and its CRLF, seen from the incremental side. */
  lemma OneShotBody(data: Bytes, start: nat, n: nat)
    requires start <= |data| && n > 0
    ensures var st := DecoderState(data[start..], n, ReadingBody);
      if start + n + 2 > |data| then !Ends(st)
      else
        var next := DecoderState(data[start + n + 2..], 0, ReadingSize);
        Ends(st) == Ends(next) && Drain(st).0 == data[start..start + n] + Drain(next).0
  {
    hide SizeOf, Find;
    var st := DecoderState(data[start..], n, ReadingBody);
    if start + n + 2 <= |data| {
      assert st.buf[n..][2..] == data[start + n + 2..] && st.buf[..n] == data[start..start + n];
      AtBody(st);
      AtTrail(DecoderState(st.buf[n..], 0, BodyTrail));
    }
  }

  /** A chunk body that is cut off, seen from the incremental side. */
  lemma CutBody(data: Bytes, start: nat, n: nat)
    requires start <= |data| && n > 0 && start + n + 2 > |data|
    ensures var end := Drain(DecoderState(data[start..], n, ReadingBody)).1;
      if start + n <= |data| then end.phase == BodyTrail
      else end.phase == ReadingBody && end.remaining == start + n - |data|
  {
    hide SizeOf, Find;
    var st := DecoderState(data[start..], n, ReadingBody);
    if start + n <= |data| {
      AtBody(st);
      TrailWaits(DecoderState(st.buf[n..], 0, BodyTrail));
    }
  }

  /** The incremental decoder stops behind a body without its whole CRLF, or in one too long for any address. */
  predicate StopsBadly(end: DecoderState, length: nat) {
    end.phase == BodyTrail || (end.phase == ReadingBody && length + end.remaining > USIZE_MAX)
  }

  /**
   * Exactly when the one-shot decoder panics. What remains is a malformed message: no CRLF, no size, or a body that
   * is only too short.
   */
  lemma {:induction false} OneShotPanicsIff(data: Bytes, pos: nat, r: nat)
    requires pos <= |data| <= USIZE_MAX
    ensures var st := DecoderState(data[pos..], r, ReadingSize);
      OneShot(data, pos) == Panics <==> !Ends(st) && StopsBadly(Drain(st).1, |data|)
    decreases |data| - pos
  {
    hide SizeOf, Find, OneShot, Drain, Ends, StopsBadly;
    var buf := data[pos..];
    var st := DecoderState(buf, r, ReadingSize);
    OneShotStops(data, pos);
    SizeStopsWell(st, |data|);
    if Find(buf, CRLF).None? {
    } else {
      var p := Find(buf, CRLF).value;
      assert buf[..p] == data[pos..pos + p] && buf[p + 2..] == data[pos + p + 2..];
      if SizeOf(buf[..p]).Some? {
        var n := SizeOf(buf[..p]).value;
        OneShotAt(data, pos, p, n);
        if n == 0 {
          TerminalDrains(st, p);
        } else {
          AtSize(st, p, n);
          PanicsInBody(data, pos + p + 2, n);
          var end := pos + p + 2 + n + 2;
          OneShotStops(data, end);
          if end <= |data| { OneShotPanicsIff(data, end, 0); }
        }
      }
    }
  }

  lemma SizeStopsWell(st: DecoderState, length: nat)
    requires st.phase == ReadingSize
    ensures Find(st.buf, CRLF).None? || SizeOf(st.buf[..Find(st.buf, CRLF).value]).None? ==>
      !StopsBadly(Drain(st).1, length)
  {
    hide SizeOf, Find;
  }

  /** One chunk of the comparison. */
  lemma PanicsInBody(data: Bytes, start: nat, n: nat)
    requires start <= |data| <= USIZE_MAX && n > 0
    ensures var st := DecoderState(data[start..], n, ReadingBody);
      if start + n + 2 > |data| then
        !Ends(st) && (StopsBadly(Drain(st).1, |data|) <==> start + n <= |data| || start + n > USIZE_MAX)
      else
        var next := DecoderState(data[start + n + 2..], 0, ReadingSize);
        Ends(st) == Ends(next) && Drain(st).1 == Drain(next).1
  {
    hide SizeOf, Find, Drain, Ends, OneShot;
    OneShotBody(data, start, n);
    var st := DecoderState(data[start..], n, ReadingBody);
    if start + n + 2 > |data| {
      CutBody(data, start, n);
    } else {
      assert st.buf[n..][2..] == data[start + n + 2..];
      AtBody(st);
      AtTrail(DecoderState(st.buf[n..], 0, BodyTrail));
    }
  }

  /** A chunk that claims more than it holds, and a terminal chunk: `8`, `ab`, `0`. */
  const SHORT_CHUNK: Bytes := [56, 13, 10, 97, 98, 13, 10, 48, 13, 10, 13, 10]

  lemma EightSaysEight()
    ensures SizeOf([56]) == Some(8)
  {
    hide SizeOf, SizeLine.Says, SizeLine.Line;
    PlainLineSays(8);
    SizeOfLine(PlainLine(8), 8);
    assert Format(8, 16) == [56];
  }

  lemma ShortChunkPanics()
    ensures OneShot(SHORT_CHUNK, 0) == Panics
  {
    var d := SHORT_CHUNK;
    assert d == [56] + (CRLF + d[3..]) && d[0..] == d && d[0..1] == [56];
    hide SizeOf, Find, OneShot, SizeLine.Says, SizeLine.Line, SHORT_CHUNK;
    LineEnds([56], d[3..]);
    EightSaysEight();
    OneShotAt(d, 0, 1, 8);
    OneShotStops(d, 13);
  }

  /** The one-shot decoder gives the payload of every message, however it is written. */
  lemma OneShotDecodesWire(ps: seq<Piece>, last: SizeLine)
    requires (forall p :: p in ps ==> p.Good()) && last.Says(0) && |Wire(ps, last)| <= USIZE_MAX
    ensures OneShot(Wire(ps, last), 0) == Payload(DataOf(ps))
  {
    hide SizeOf, Find, Drain, Ends, OneShot, Wire, SizeLine.Says;
    WireDrains(ps, last, 0);
    assert Wire(ps, last)[0..] == Wire(ps, last);
    OneShotIsDrain(Wire(ps, last), 0, 0);
  }

  /** The one-shot decoder gives the payload of every written message. */
  lemma OneShotDecodes(chunks: seq<Bytes>)
    requires forall c :: c in chunks ==> 0 < |c| <= USIZE_MAX
    requires |Encode(chunks)| <= USIZE_MAX
    ensures OneShot(Encode(chunks), 0) == Payload(Flatten(chunks))
  {
    hide OneShot, Encode, Wire, PlainPieces, DataOf, SizeLine.Says;
    PlainLineSays(0);
    EncodeIsWire(chunks);
    OneShotDecodesWire(PlainPieces(chunks), PlainLine(0));
  }
}
