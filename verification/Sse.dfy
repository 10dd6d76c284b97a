/** Server-sent events: splitting the byte stream at blank lines, and what follows from the split being stable. */
module Sse {
  import opened Bytes
  import opened Text
  import opened Chunked

  datatype Event = Event(kind: Option<Bytes>, data: Bytes)

  /** Where a block ends and where the next one starts. */
  datatype Separator = Separator(blockEnd: nat, drainEnd: nat)

  predicate LongAt(buf: Bytes, i: nat) {
    i + 3 < |buf| && buf[i] == CR && buf[i + 1] == LF && buf[i + 2] == CR && buf[i + 3] == LF
  }

  predicate ShortAt(buf: Bytes, i: nat) {
    i + 1 < |buf| && buf[i] == LF && buf[i + 1] == LF
  }

  /** The first separator at or after `i`. */
  function FirstSeparator(buf: Bytes, i: nat): (r: Option<Separator>)
    ensures r.Some? ==> i <= r.value.blockEnd < r.value.drainEnd <= |buf|
    decreases |buf| - i
  {
    if i + 1 >= |buf| then None
    else if LongAt(buf, i) then Some(Separator(i, i + 4))
    else if ShortAt(buf, i) then Some(Separator(i, i + 2))
    else FirstSeparator(buf, i + 1)
  }

  method FindDoubleNewline(buf: Bytes) returns (r: Option<Separator>)
    ensures r == FirstSeparator(buf, 0)
  {
    var n := if |buf| >= 1 then |buf| - 1 else 0;
    for i := 0 to n
      invariant FirstSeparator(buf, i) == FirstSeparator(buf, 0)
    {
      if LongAt(buf, i) { return Some(Separator(i, i + 4)); }
      if ShortAt(buf, i) { return Some(Separator(i, i + 2)); }
    }
    return None;
  }

  // ----- One block

  const EVENT: Bytes := [101, 118, 101, 110, 116, 58] // event:
  const DATA: Bytes := [100, 97, 116, 97, 58]         // data:

  lemma FieldNames()
    ensures EVENT == Spelt("event:") && DATA == Spelt("data:")
  {
  }

  /** The event type and the data lines collected so far. */
  datatype Fields = Fields(kind: Option<Bytes>, parts: seq<Bytes>)

  function AddLine(f: Fields, line: Bytes): Fields {
    if EVENT <= line then f.(kind := Some(Trim(line[|EVENT|..])))
    else if DATA <= line then f.(parts := f.parts + [Trim(line[|DATA|..])])
    else f
  }

  function AddLines(f: Fields, lines: seq<Bytes>): Fields
    decreases |lines|
  {
    if lines == [] then f else AddLines(AddLine(f, lines[0]), lines[1..])
  }

  function Join(parts: seq<Bytes>): Bytes {
    if parts == [] then []
    else if |parts| == 1 then parts[0]
    else parts[0] + [LF] + Join(parts[1..])
  }

  /** The stretches of a text between its line feeds. */
  function Stretches(t: Bytes): seq<Bytes>
    decreases |t|
  {
    match Find(t, [LF])
    case None => [t]
    case Some(p) => [t[..p]] + Stretches(t[p + 1..])
  }

  /** Joined parts stand between line feeds. */
  lemma {:induction false} JoinReadsBack(parts: seq<Bytes>)
    requires parts != [] && forall p :: p in parts ==> LF !in p
    ensures Stretches(Join(parts)) == parts
    decreases |parts|
  {
    hide Find;
    var p := parts[0];
    assert p in parts;
    if |parts| == 1 {
      NoSingle(p, LF);
    } else {
      var rest := Join(parts[1..]);
      var t := Join(parts);
      assert t == p + ([LF] + rest);
      SingleAt(p, LF, rest);
      assert t[..|p|] == p && t[|p| + 1..] == rest;
      JoinReadsBack(parts[1..]);
    }
  }

  function ParseBlock(block: Bytes): Option<Event> {
    if !ValidUtf8(block) then None
    else
      var f := AddLines(Fields(None, []), Lines(block));
      if f.parts == [] then None else Some(Event(f.kind, Join(f.parts)))
  }

  method ParseEventBlock(block: Bytes) returns (r: Option<Event>)
    ensures r == ParseBlock(block)
  {
    hide ValidUtf8, Lines, Trim, Join;
    if !ValidUtf8(block) { return None; }
    var f := Fields(None, []);
    var lines := Lines(block);
    for i := 0 to |lines|
      invariant AddLines(f, lines[i..]) == AddLines(Fields(None, []), lines)
    {
      assert lines[i..][0] == lines[i] && lines[i..][1..] == lines[i + 1..];
      f := AddLine(f, lines[i]);
    }
    assert lines[|lines|..] == [];
    if f.parts == [] { return None; }
    return Some(Event(f.kind, Join(f.parts)));
  }

  // ----- The stream

  function Emitted(block: Bytes): seq<Event> {
    match ParseBlock(block) case None => [] case Some(e) => [e]
  }

  /** All complete events of a buffer, and the rest of it. */
  function Split(buf: Bytes): (seq<Event>, Bytes)
    decreases |buf|
  {
    match FirstSeparator(buf, 0)
    case None => ([], buf)
    case Some(s) =>
      var (events, rest) := Split(buf[s.drainEnd..]);
      (Emitted(buf[..s.blockEnd]) + events, rest)
  }

  lemma SplitStep(buf: Bytes)
    ensures var s := FirstSeparator(buf, 0);
      Split(buf) ==
      if s.None? then ([], buf)
      else (Emitted(buf[..s.value.blockEnd]) + Split(buf[s.value.drainEnd..]).0, Split(buf[s.value.drainEnd..]).1)
  {
    hide ParseBlock;
  }

  class SseParser {
    var buffer: Bytes

    constructor ()
      ensures buffer == []
    {
      buffer := [];
    }

    method Push(bytes: Bytes) returns (events: seq<Event>)
      modifies this
      ensures (events, buffer) == Split(old(buffer) + bytes)
    {
      hide ParseBlock, Split, FirstSeparator;
      buffer := buffer + bytes;
      events := [];
      ghost var whole := Split(buffer);
      assert [] + whole.0 == whole.0;
      var sep := FindDoubleNewline(buffer);
      while sep.Some?
        invariant sep == FirstSeparator(buffer, 0)
        invariant events + Split(buffer).0 == whole.0 && Split(buffer).1 == whole.1
        decreases |buffer|
      {
        SplitStep(buffer);
        var event := ParseEventBlock(buffer[..sep.value.blockEnd]);
        ghost var rest := Split(buffer[sep.value.drainEnd..]).0;
        assert events + (Emitted(buffer[..sep.value.blockEnd]) + rest) ==
               events + Emitted(buffer[..sep.value.blockEnd]) + rest;
        buffer := buffer[sep.value.drainEnd..];
        if event.Some? { events := events + [event.value]; }
        sep := FindDoubleNewline(buffer);
      }
      SplitStep(buffer);
      assert events + [] == events;
    }
  }

  /** The first separator does not move when bytes are added, although two different tests look for it. */
  lemma {:induction false} SeparatorStable(buf: Bytes, b: Bytes, i: nat)
    requires FirstSeparator(buf, i).Some?
    ensures FirstSeparator(buf + b, i) == FirstSeparator(buf, i)
    decreases |buf| - i
  {
    var t := buf + b;
    assert forall j :: 0 <= j < |buf| ==> t[j] == buf[j];
    if LongAt(buf, i) || ShortAt(buf, i) {
    } else {
      SeparatorStable(buf, b, i + 1);
      assert FirstSeparator(buf, i + 1).value.drainEnd <= |buf|;
      assert !LongAt(t, i) by { NoLateSeparator(buf, b, i); }
    }
  }

  lemma NoLateSeparator(buf: Bytes, b: Bytes, i: nat)
    requires !LongAt(buf, i) && FirstSeparator(buf, i + 1).Some?
    ensures !LongAt(buf + b, i)
  {
    var t := buf + b;
    assert forall j :: 0 <= j < |buf| ==> t[j] == buf[j];
    if i + 3 >= |buf| { SeparatorNearEnd(buf, i + 1); }
  }

  lemma SeparatorNearEnd(buf: Bytes, k: nat)
    requires FirstSeparator(buf, k).Some? && k + 2 >= |buf|
    ensures ShortAt(buf, k)
  {
  }

  /** Splitting is independent of how the bytes arrive. */
  lemma {:induction false} SplitIsChunkIndependent(buf: Bytes, b: Bytes)
    ensures
      var (events1, rest1) := Split(buf);
      var (events2, rest2) := Split(rest1 + b);
      Split(buf + b) == (events1 + events2, rest2)
    decreases |buf|
  {
    hide ParseBlock;
    match FirstSeparator(buf, 0)
    case None =>
      assert [] + Split(buf + b).0 == Split(buf + b).0;
    case Some(s) =>
      SeparatorStable(buf, b, 0);
      assert (buf + b)[s.drainEnd..] == buf[s.drainEnd..] + b;
      assert (buf + b)[..s.blockEnd] == buf[..s.blockEnd];
      SplitIsChunkIndependent(buf[s.drainEnd..], b);
      var (events1, rest1) := Split(buf[s.drainEnd..]);
      var e, events2 := Emitted(buf[..s.blockEnd]), Split(rest1 + b).0;
      assert e + (events1 + events2) == e + events1 + events2;
  }

  // ----- Behind the chunked decoder

  /** The response path: each read goes through the chunked decoder, its payload through the parser. */
  function Pipe(st: DecoderState, buf: Bytes, pieces: seq<Bytes>): (seq<Event>, Bytes)
    decreases |pieces|
  {
    if pieces == [] then ([], buf)
    else
      var (payload, st1) := Pushed(st, pieces[0]);
      var (events, buf1) := Split(buf + payload);
      var (more, end) := Pipe(st1, buf1, pieces[1..]);
      (events + more, end)
  }

  /** The pipe gives the events of the whole decoded payload. */
  lemma {:induction false} PipeIsSplit(st: DecoderState, buf: Bytes, pieces: seq<Bytes>)
    requires Split(buf) == ([], buf)
    ensures Pipe(st, buf, pieces) == Split(buf + PushAll(st, pieces).0)
    decreases |pieces|
  {
    hide Split, Pushed;
    if pieces == [] {
      assert buf + [] == buf;
    } else {
      var (payload, st1) := Pushed(st, pieces[0]);
      var (events, buf1) := Split(buf + payload);
      RestIsSplit(buf + payload);
      PipeIsSplit(st1, buf1, pieces[1..]);
      var later := PushAll(st1, pieces[1..]).0;
      Assoc(buf, payload, later);
      SplitIsChunkIndependent(buf + payload, later);
    }
  }

  lemma RestIsSplit(buf: Bytes)
    ensures Split(Split(buf).1) == ([], Split(buf).1)
  {
    hide Split;
    SplitIsChunkIndependent(buf, []);
    assert buf + [] == buf && Split(buf).1 + [] == Split(buf).1;
    var a, b := Split(buf).0, Split(Split(buf).1).0;
    assert |a + b| == |a| + |b|;
  }

  /** Every cut of a well-formed chunked response gives the events of its bare payload. */
  lemma FramedStreamGivesPayloadEvents(chunks: seq<Bytes>, pieces: seq<Bytes>)
    requires forall c :: c in chunks ==> 0 < |c| <= USIZE_MAX
    requires Flatten(pieces) == Encode(chunks)
    ensures Pipe(START, [], pieces) == Split(Flatten(chunks))
  {
    EmptySplit();
    hide Split, PushAll, Encode;
    EveryCutDecodes(chunks, pieces);
    PipeIsSplit(START, [], pieces);
    assert [] + Flatten(chunks) == Flatten(chunks);
  }

  lemma EmptySplit()
    ensures Split([]) == ([], [])
  {
  }

  // ----- Written events are read back

  /** A line of a block as a server writes it: a field with blanks around its value, or something else. */
  datatype Line =
    | Kind(before: Bytes, value: Bytes, after: Bytes)
    | Data(before: Bytes, value: Bytes, after: Bytes)
    | Other(text: Bytes)
  {
    function Text(): Bytes {
      match this
      case Kind(_, _, _) => Field(EVENT, before, value, after)
      case Data(_, _, _) => Field(DATA, before, value, after)
      case Other(text) => text
    }

    predicate Good() {
      if Other? then Solid(text) && !(EVENT <= text) && !(DATA <= text)
      else Blank(before) && Blank(after) && Clean(value)
    }
  }

  /** A block with its lines ended by CRLF or by LF. */
  datatype Message = Message(lines: seq<Line>, crlf: bool)
  {
    function NewLine(): (nl: Bytes)
      ensures 1 <= |nl| <= 2 && nl[|nl| - 1] == LF
    {
      if crlf then CRLF else [LF]
    }

    function Block(): Bytes {
      Joined(TextsOf(lines), NewLine())
    }

    function Wire(): Bytes {
      Block() + (NewLine() + NewLine())
    }

    predicate Writable() {
      lines != [] && forall l :: l in lines ==> l.Good()
    }
  }

  /** A value that survives trimming and line splitting. */
  predicate Clean(v: Bytes) {
    LF !in v && ValidUtf8(v) && SpaceInFront(v) == 0 && SpaceAtEnd(v) == 0
  }

  function Field(name: Bytes, before: Bytes, v: Bytes, after: Bytes): Bytes {
    name + (before + (v + after))
  }

  function TextsOf(lines: seq<Line>): (ls: seq<Bytes>)
    ensures |ls| == |lines|
  {
    if lines == [] then [] else [lines[0].Text()] + TextsOf(lines[1..])
  }

  function Joined(lines: seq<Bytes>, nl: Bytes): Bytes {
    if lines == [] then []
    else if |lines| == 1 then lines[0]
    else lines[0] + (nl + Joined(lines[1..], nl))
  }

  /** The type that counts is the last one given. */
  function LastKind(lines: seq<Line>): Option<Bytes> {
    if lines == [] then None
    else
      var last := lines[|lines| - 1];
      if last.Kind? then Some(last.value) else LastKind(lines[..|lines| - 1])
  }

  function Values(lines: seq<Line>): seq<Bytes> {
    if lines == [] then []
    else (if lines[0].Data? then [lines[0].value] else []) + Values(lines[1..])
  }

  /** The event that a block means; without data there is none. */
  function Meant(m: Message): Option<Event> {
    if Values(m.lines) == [] then None else Some(Event(LastKind(m.lines), Join(Values(m.lines))))
  }

  /** A line that is not empty, holds no LF and does not end with CR. */
  predicate Solid(line: Bytes) {
    line != [] && LF !in line && line[|line| - 1] != CR && ValidUtf8(line)
  }

  predicate Quiet(s: Bytes) {
    LF !in s && ValidUtf8(s) && (s != [] ==> s[|s| - 1] != CR)
  }

  lemma QuietConcat(a: Bytes, b: Bytes)
    requires Quiet(a) && Quiet(b)
    ensures Quiet(a + b)
  {
    Utf8Concat(a, b);
    hide ValidUtf8;
  }

  lemma AsciiIsQuiet(a: Bytes)
    requires forall b :: b in a ==> b < 0x80 && b != LF && b != CR
    ensures Quiet(a)
  {
    AsciiIsUtf8(a);
    hide ValidUtf8;
    assert a != [] ==> a[|a| - 1] in a;
  }

  lemma NamesAreQuiet()
    ensures Quiet(EVENT) && Quiet(DATA)
  {
    hide Quiet;
    AsciiIsQuiet(EVENT);
    AsciiIsQuiet(DATA);
  }

  lemma CleanIsQuiet(v: Bytes)
    requires Clean(v)
    ensures Quiet(v)
  {
    hide ValidUtf8, SpaceInFront;
  }

  lemma FieldIsSolid(name: Bytes, a: Bytes, v: Bytes, b: Bytes)
    requires name != [] && Quiet(name) && Blank(a) && Clean(v) && Blank(b)
    ensures Solid(Field(name, a, v, b))
  {
    AsciiIsQuiet(a);
    AsciiIsQuiet(b);
    CleanIsQuiet(v);
    hide Quiet, Clean, Blank;
    QuietConcat(v, b);
    QuietConcat(a, v + b);
    QuietConcat(name, a + (v + b));
    QuietIsSolid(Field(name, a, v, b));
  }

  lemma QuietIsSolid(s: Bytes)
    requires Quiet(s) && s != []
    ensures Solid(s)
  {
    hide ValidUtf8;
  }

  lemma LineIsSolid(l: Line)
    requires l.Good()
    ensures Solid(l.Text())
  {
    hide Solid, Clean, Quiet;
    NamesAreQuiet();
    if !l.Other? { FieldIsSolid(if l.Kind? then EVENT else DATA, l.before, l.value, l.after); }
  }

  lemma {:induction false} LinesAreSolid(lines: seq<Line>)
    requires forall l :: l in lines ==> l.Good()
    ensures forall t :: t in TextsOf(lines) ==> Solid(t)
    decreases |lines|
  {
    hide Solid, Line.Good, Line.Text;
    if lines == [] {
    } else {
      assert lines[0] in lines;
      LineIsSolid(lines[0]);
      LinesAreSolid(lines[1..]);
    }
  }

  /** Text in which no blank line stands in front, inside or at the end. */
  ghost predicate Smooth(t: Bytes) {
    && t != [] && t[|t| - 1] != LF && t[|t| - 1] != CR && LineStarts(t, 0)
    && forall i :: 0 < i < |t| && t[i - 1] == LF ==> LineStarts(t, i)
  }

  /** The line at `i` is not empty. */
  predicate LineStarts(t: Bytes, i: nat) {
    i < |t| && t[i] != LF && !(t[i] == CR && i + 1 < |t| && t[i + 1] == LF)
  }

  lemma SmoothCons(l: Bytes, nl: Bytes, rest: Bytes)
    requires l != [] && LF !in l && l[|l| - 1] != CR && Smooth(rest) && (nl == [LF] || nl == CRLF)
    ensures Smooth(l + (nl + rest))
  {
    var t, n, m := l + (nl + rest), |l|, |l| + |nl|;
    assert (forall i :: 0 <= i < n ==> t[i] == l[i] != LF) && t[m - 1] == LF && (m - n == 2 ==> t[n] == CR);
    forall i | m <= i < |t| ensures t[i] == rest[i - m] {
    }
    forall i | 0 < i < |t| && t[i - 1] == LF ensures LineStarts(t, i) {
      assert i >= m;
      assert LineStarts(rest, i - m);
    }
  }

  lemma {:induction false} JoinIsSmooth(lines: seq<Bytes>, nl: Bytes)
    requires lines != [] && (nl == [LF] || nl == CRLF) && forall l :: l in lines ==> Solid(l)
    ensures Smooth(Joined(lines, nl)) && ValidUtf8(Joined(lines, nl))
    decreases |lines|
  {
    hide ValidUtf8;
    assert lines[0] in lines;
    if |lines| == 1 {
    } else {
      hide Smooth;
      var rest := Joined(lines[1..], nl);
      JoinIsSmooth(lines[1..], nl);
      AsciiIsUtf8(nl);
      Utf8Concat(nl, rest);
      Utf8Concat(lines[0], nl + rest);
      SmoothCons(lines[0], nl, rest);
    }
  }

  /** The separator of a written block is the blank line at its end. */
  lemma {:induction false} SeparatorBehind(t: Bytes, nl: Bytes, rest: Bytes, i: nat)
    requires Smooth(t) && i <= |t| && (nl == [LF] || nl == CRLF)
    ensures FirstSeparator(t + (nl + nl) + rest, i) == Some(Separator(|t|, |t| + 2 * |nl|))
    decreases |t| - i
  {
    hide Smooth;
    if i == |t| {
      BlankBehind(t, nl, rest);
    } else {
      NoSeparatorInside(t, nl, rest, i);
      SeparatorBehind(t, nl, rest, i + 1);
    }
  }

  lemma BlankBehind(t: Bytes, nl: Bytes, rest: Bytes)
    requires nl == [LF] || nl == CRLF
    ensures FirstSeparator(t + (nl + nl) + rest, |t|) == Some(Separator(|t|, |t| + 2 * |nl|))
  {
    var buf := t + (nl + nl) + rest;
    assert forall j :: 0 <= j < 2 * |nl| ==> buf[|t| + j] == (nl + nl)[j];
  }

  lemma NoSeparatorInside(t: Bytes, nl: Bytes, rest: Bytes, i: nat)
    requires Smooth(t) && i < |t| && (nl == [LF] || nl == CRLF)
    ensures !LongAt(t + (nl + nl) + rest, i) && !ShortAt(t + (nl + nl) + rest, i)
  {
    var buf := t + (nl + nl) + rest;
    assert forall j :: 0 <= j < |t| ==> buf[j] == t[j];
    assert i + 1 < |t| && t[i] == LF ==> LineStarts(t, i + 1);
    assert i + 2 < |t| && t[i + 1] == LF ==> LineStarts(t, i + 2);
  }

  lemma {:induction false} LinesOfJoin(lines: seq<Bytes>, nl: Bytes)
    requires lines != [] && (nl == [LF] || nl == CRLF) && forall l :: l in lines ==> Solid(l)
    ensures Lines(Joined(lines, nl)) == lines
    decreases |lines|
  {
    hide ValidUtf8, Find;
    assert lines[0] in lines;
    var l := lines[0];
    if |lines| == 1 {
      NoSingle(l, LF);
    } else {
      var rest := Joined(lines[1..], nl);
      var t, front := Joined(lines, nl), if |nl| == 1 then l else l + [CR];
      assert t == front + ([LF] + rest);
      FirstOfLines(l, front, rest);
      LinesOfJoin(lines[1..], nl);
    }
  }

  lemma FirstOfLines(l: Bytes, front: Bytes, rest: Bytes)
    requires Solid(l) && (front == l || front == l + [CR])
    ensures Lines(front + ([LF] + rest)) == [l] + Lines(rest)
  {
    hide ValidUtf8, Find;
    var t := front + ([LF] + rest);
    assert StripCr(front) == l;
    SingleAt(front, LF, rest);
    assert t[..|front|] == front && t[|front| + 1..] == rest;
  }

  /** What a written line adds. */
  function Adds(f: Fields, l: Line): Fields {
    match l
    case Kind(_, value, _) => f.(kind := Some(value))
    case Data(_, value, _) => f.(parts := f.parts + [value])
    case Other(_) => f
  }

  lemma LineAdds(f: Fields, l: Line)
    requires l.Good()
    ensures AddLine(f, l.Text()) == Adds(f, l)
  {
    hide Trim, ValidUtf8, SpaceInFront, SpaceAtEnd, Solid;
    if !l.Other? {
      var name := if l.Kind? then EVENT else DATA;
      var t := l.Text();
      assert t[|name|..] == l.before + (l.value + l.after) && t[0] == name[0];
      TrimsBlanks(l.before, l.value, l.after);
    }
  }

  lemma {:induction false} LinesAdd(f: Fields, lines: seq<Line>)
    requires forall l :: l in lines ==> l.Good()
    ensures AddLines(f, TextsOf(lines)) ==
      Fields(if LastKind(lines).Some? then LastKind(lines) else f.kind, f.parts + Values(lines))
    decreases |lines|
  {
    hide AddLine, Line.Good, Line.Text, LastKind;
    NoKind();
    if lines == [] {
      assert f.parts + [] == f.parts;
    } else {
      var l, rest := lines[0], lines[1..];
      assert l in lines;
      LineAdds(f, l);
      LinesAdd(Adds(f, l), rest);
      LastKindCons(l, rest);
      assert [l] + rest == lines && TextsOf(lines)[1..] == TextsOf(rest);
      Assoc2(f.parts, if l.Data? then [l.value] else [], Values(rest));
    }
  }

  lemma Assoc2(a: seq<Bytes>, b: seq<Bytes>, c: seq<Bytes>)
    ensures a + (b + c) == (a + b) + c && a + [] == a
  {
  }

  lemma NoKind()
    ensures LastKind([]) == None
  {
  }

  lemma {:induction false} LastKindCons(l: Line, rest: seq<Line>)
    ensures LastKind([l] + rest) ==
      if LastKind(rest).Some? then LastKind(rest) else if l.Kind? then Some(l.value) else None
    decreases |rest|
  {
    var all := [l] + rest;
    if rest == [] {
      assert all[..0] == [];
    } else {
      assert all[..|all| - 1] == [l] + rest[..|rest| - 1];
      LastKindCons(l, rest[..|rest| - 1]);
    }
  }

  /** A written block parses to its last type and its data lines; all other lines are ignored. */
  lemma BlockParses(m: Message)
    requires m.Writable()
    ensures ParseBlock(m.Block()) == Meant(m)
  {
    hide ValidUtf8, Lines, Join, Joined, Smooth, Solid, TextsOf, Values, LastKind, AddLines, Line.Good;
    LinesAreSolid(m.lines);
    JoinIsSmooth(TextsOf(m.lines), m.NewLine());
    LinesOfJoin(TextsOf(m.lines), m.NewLine());
    LinesAdd(Fields(None, []), m.lines);
    assert [] + Values(m.lines) == Values(m.lines);
  }

  function Wires(ms: seq<Message>): Bytes {
    if ms == [] then [] else ms[0].Wire() + Wires(ms[1..])
  }

  function EventsOf(ms: seq<Message>): seq<Event> {
    if ms == [] then []
    else (match Meant(ms[0]) case None => [] case Some(e) => [e]) + EventsOf(ms[1..])
  }

  lemma {:induction false} WiresSplit(ms: seq<Message>)
    requires forall m :: m in ms ==> m.Writable()
    ensures Split(Wires(ms)) == (EventsOf(ms), [])
    decreases |ms|
  {
    hide ParseBlock, FirstSeparator, Message.Writable, Message.Block, Meant;
    if ms == [] {
      EmptySplit();
    } else {
      var t, nl, rest := ms[0].Block(), ms[0].NewLine(), Wires(ms[1..]);
      assert ms[0] in ms;
      BlockIsSmooth(ms[0]);
      SeparatorBehind(t, nl, rest, 0);
      BlockParses(ms[0]);
      hide Smooth;
      var buf := Wires(ms);
      assert buf == t + (nl + nl) + rest && buf[|t| + 2 * |nl|..] == rest && buf[..|t|] == t;
      WiresSplit(ms[1..]);
    }
  }

  /** A block that is not UTF-8 is dropped whole, and nothing else with it. */
  lemma BrokenBlockIsDropped(t: Bytes, nl: Bytes, rest: Bytes)
    requires Smooth(t) && !ValidUtf8(t) && (nl == [LF] || nl == CRLF)
    ensures Split(t + (nl + nl) + rest) == Split(rest)
  {
    hide ValidUtf8, Smooth, FirstSeparator, Split, Lines;
    SeparatorBehind(t, nl, rest, 0);
    var buf := t + (nl + nl) + rest;
    SplitStep(buf);
    assert buf[..|t|] == t && buf[|t| + 2 * |nl|..] == rest;
    assert [] + Split(rest).0 == Split(rest).0;
  }

  lemma BlockIsSmooth(m: Message)
    requires m.Writable()
    ensures Smooth(m.Block())
  {
    hide Joined, Smooth, Line.Good;
    LinesAreSolid(m.lines);
    JoinIsSmooth(TextsOf(m.lines), m.NewLine());
  }

  /** Events written, chunked and cut in any way at all are received one for one. */
  lemma EventsSurviveTheWire(ms: seq<Message>, chunks: seq<Bytes>, pieces: seq<Bytes>)
    requires forall m :: m in ms ==> m.Writable()
    requires forall c :: c in chunks ==> 0 < |c| <= USIZE_MAX
    requires Flatten(chunks) == Wires(ms) && Flatten(pieces) == Encode(chunks)
    ensures Pipe(START, [], pieces) == (EventsOf(ms), [])
  {
    hide Pipe, Split, Wires, EventsOf, Encode, Message.Writable;
    FramedStreamGivesPayloadEvents(chunks, pieces);
    WiresSplit(ms);
  }
}
