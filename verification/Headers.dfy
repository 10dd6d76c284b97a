/** What the loop's header tests say about headers written as lines. */
module Headers {
  import opened Bytes
  import opened Text
  import opened Chunked
  import opened Requests
  import opened Rebuild
  import opened RequestLoop

  lemma LengthNames()
    ensures CONTENT_LENGTH == Spelt("content-length:") && CONTENT_LENGTH_FIELD == Spelt("Content-Length: ")
  {
  }

  lemma CodingNames()
    ensures TRANSFER_ENCODING == Spelt("transfer-encoding:") && CHUNKED == Spelt("chunked")
  {
  }

  lemma EncodingNames()
    ensures ACCEPT_ENCODING == Spelt("accept-encoding:") && IDENTITY_FIELD == Spelt("Accept-Encoding: identity")
  {
  }

  // ----- Which lines a rebuild drops

  const COLON: byte := 58

  /** The name in front of the first colon, if there is one, in lower case. */
  function FieldName(line: Bytes): Option<Bytes> {
    match Find(line, [COLON])
    case None => None
    case Some(p) => Some(Lower(line[..p]))
  }

  lemma NamedIff(line: Bytes, name: Bytes)
    requires COLON !in name
    ensures name + [COLON] <= Lower(line) <==> FieldName(line) == Some(name)
  {
    hide Find;
    var n, low := |name|, Lower(line);
    if name + [COLON] <= low {
      assert low[n] == COLON && low[..n] == name;
      assert line == line[..n] + ([COLON] + line[n + 1..]);
      forall b | b in line[..n] ensures b != COLON {
        var i :| 0 <= i < n && line[i] == b;
        assert low[i] == name[i];
      }
      SingleAt(line[..n], COLON, line[n + 1..]);
      assert Lower(line[..n]) == low[..n];
    }
    ColonBehindName(line);
  }

  lemma ColonBehindName(line: Bytes)
    ensures FieldName(line).Some? ==> FieldName(line).value + [COLON] <= Lower(line)
  {
    hide Find;
    if FieldName(line).Some? {
      var p := Find(line, [COLON]).value;
      assert line[p..][0] == COLON;
      assert Lower(line[..p]) + [COLON] == Lower(line)[..p + 1];
    }
  }

  /** Exactly the three fields go, by their whole name in any case; every other line is kept. */
  lemma DroppedIff(line: Bytes)
    ensures Dropped(line) <==>
      || FieldName(line) == Some(Spelt("transfer-encoding"))
      || FieldName(line) == Some(Spelt("content-length"))
      || FieldName(line) == Some(Spelt("accept-encoding"))
  {
    hide FieldName, Lower, Find;
    NamesOfDropped();
    NamedIff(line, Spelt("transfer-encoding"));
    NamedIff(line, Spelt("content-length"));
    NamedIff(line, Spelt("accept-encoding"));
  }

  lemma NamesOfDropped()
    ensures Spelt("transfer-encoding") + [COLON] == TRANSFER_ENCODING && COLON !in Spelt("transfer-encoding")
    ensures Spelt("content-length") + [COLON] == CONTENT_LENGTH && COLON !in Spelt("content-length")
    ensures Spelt("accept-encoding") + [COLON] == ACCEPT_ENCODING && COLON !in Spelt("accept-encoding")
  {
  }

  // ----- Headers made of lines

  /** A header made of lines ends at its end, and its lines are what the parsers look at. */
  lemma HeaderOfLines(ls: seq<Bytes>)
    requires ls != [] && FieldLines(ls)
    ensures
      var header := Block(ls) + CRLF;
      && HeaderEnd(header) == Some(|header|)
      && ContentLength(header) == LengthIn(ls + [[]])
      && (IsChunked(header) <==> exists l :: l in ls && SaysChunked(l))
  {
    hide ValidUtf8, Lines, FieldLine, HeaderEnd, Block, LengthIn, SaysChunked;
    var header := Block(ls) + CRLF;
    HeaderEndsAtBody(ls, []);
    assert header + [] == header;
    BlockIsAscii(ls);
    AsciiIsUtf8(header);
    LinesOfBlock(ls);
    NothingIsChunked();
    assert forall l :: l in ls + [[]] <==> l in ls || l == [];
  }

  lemma NothingIsChunked()
    ensures !SaysChunked([])
  {
  }

  predicate IsLength(l: Bytes) {
    FieldName(l) == Some(Spelt("content-length"))
  }

  lemma LengthLineIff(l: Bytes)
    ensures CONTENT_LENGTH <= Lower(l) <==> IsLength(l)
  {
    hide FieldName, Lower;
    NamesOfDropped();
    NamedIff(l, Spelt("content-length"));
  }

  /** Without a length field there is no length. */
  lemma {:induction false} NoLength(ls: seq<Bytes>)
    requires forall l :: l in ls ==> !IsLength(l)
    ensures LengthIn(ls).None?
    decreases |ls|
  {
    hide IsLength, Lower, CONTENT_LENGTH;
    if ls == [] {
    } else {
      assert ls[0] in ls && forall l :: l in ls[1..] ==> l in ls;
      LengthLineIff(ls[0]);
      NoLength(ls[1..]);
    }
  }

  /** The first length field alone decides, whatever it holds and whatever follows it. */
  lemma {:induction false} FirstLengthDecides(before: seq<Bytes>, l: Bytes, after: seq<Bytes>)
    requires (forall k :: k in before ==> !IsLength(k)) && IsLength(l)
    ensures |l| >= |CONTENT_LENGTH|
    ensures LengthIn(before + ([l] + after)) == ParseUsize(Trim(Lower(l[|CONTENT_LENGTH|..])), 10)
    decreases |before|
  {
    hide IsLength, ParseUsize, Trim;
    LengthLineIff(l);
    var all := before + ([l] + after);
    if before == [] {
      assert all[0] == l && Lower(l)[|CONTENT_LENGTH|..] == Lower(l[|CONTENT_LENGTH|..]);
    } else {
      assert all[0] == before[0] && all[1..] == before[1..] + ([l] + after);
      assert before[0] in before && forall k :: k in before[1..] ==> k in before;
      LengthLineIff(before[0]);
      FirstLengthDecides(before[1..], l, after);
    }
  }

  lemma BlankLower(a: Bytes)
    requires Blank(a)
    ensures Lower(a) == a
  {
    forall i | 0 <= i < |a| ensures Lower(a)[i] == a[i] {
      assert a[i] in a;
    }
  }

  /** A length is read in any of its decimal spellings, with blanks around it; one beyond 64 bits counts as none. */
  lemma LengthIsRead(a: Bytes, zeros: nat, n: nat, b: Bytes)
    requires Blank(a) && Blank(b)
    ensures
      ParseUsize(Trim(Lower(a + ((Zeros(zeros) + Format(n, 10)) + b))), 10) == if n <= USIZE_MAX then Some(n) else None
  {
    hide Trim, ParseUsize, Format, Lower;
    var f := Format(n, 10);
    var number := Zeros(zeros) + f;
    DecimalDigits(n);
    assert forall d :: d in number ==> d in Zeros(zeros) || d in f;
    LowerDigits(number);
    BlankLower(a);
    BlankLower(b);
    LowerConcat(a, number + b);
    LowerConcat(number, b);
    assert number[0] in number && number[|number| - 1] in number;
    TrimsBlanks(a, number, b);
    EmptyFront(number);
    ParseOfSpelling(false, zeros, f, n, 10);
  }

  /** The usual way to announce chunks, in any case. */
  predicate AnnouncesChunks(l: Bytes) {
    Lower(l) == Spelt("transfer-encoding: chunked")
  }

  lemma ChunkedName()
    ensures Spelt("transfer-encoding: chunked") == TRANSFER_ENCODING + ([32] + CHUNKED)
  {
  }

  lemma AnnouncedIsChunked(l: Bytes)
    requires AnnouncesChunks(l)
    ensures SaysChunked(l)
  {
    hide Lower, Find;
    ChunkedName();
    var low := Lower(l);
    assert low[|TRANSFER_ENCODING| + 1..] == CHUNKED;
    assert low[..|TRANSFER_ENCODING|] == TRANSFER_ENCODING;
  }

  /** Exactly the lines with the field name `transfer-encoding` and the word `chunked` in them announce chunks. */
  lemma ChunkedLineIff(l: Bytes)
    ensures SaysChunked(l) <==> FieldName(l) == Some(Spelt("transfer-encoding")) && Factor(Spelt("chunked"), Lower(l))
  {
    hide FieldName, Lower, Find;
    NamesOfDropped();
    CodingNames();
    NamedIff(l, Spelt("transfer-encoding"));
    var low := Lower(l);
    if Find(low, CHUNKED).Some? { assert CHUNKED <= low[Find(low, CHUNKED).value..]; }
  }

  /** A header that is not UTF-8 frames nothing: the request takes the buffer, and a rebuild changes nothing. */
  lemma BrokenHeader(header: Bytes, following: Bytes)
    requires HeaderEnd(header) == Some(|header|) && !ValidUtf8(header)
    ensures Consistent(BEGIN)
    ensures Step(BEGIN, header + following) == (BEGIN, Some(Extraction(header + following, following)))
    ensures Rebuilt(header, following) == header + following
  {
    IdleIsConsistent();
    hide HeaderEnd, ValidUtf8, Consistent, Step, Find, Lines, Exchanged;
    EmptyFront(header + following);
    BodylessTakesAll(BEGIN, header + following, header, following);
  }

  /** A header of lines that announces chunks and has no length frames its body by chunks. */
  lemma ChunkedHeader(ls: seq<Bytes>, l: Bytes)
    requires FieldLines(ls) && l in ls && AnnouncesChunks(l) && forall k :: k in ls ==> !IsLength(k)
    ensures
      var header := Block(ls) + CRLF;
      HeaderEnd(header) == Some(|header|) && ContentLength(header).None? && IsChunked(header)
  {
    hide IsLength, AnnouncesChunks, FieldLines, HeaderEnd, ContentLength, IsChunked, LengthIn, Block;
    HeaderOfLines(ls);
    AnnouncedIsChunked(l);
    EmptyIsNoLength();
    forall k | k in ls + [[]] ensures !IsLength(k) {
      assert k in ls || k == [];
    }
    NoLength(ls + [[]]);
  }

  lemma EmptyIsNoLength()
    ensures !IsLength([])
  {
  }

  // ----- One request, byte for byte

  /** `POST / HTTP/1.1` */
  const POST_LINE: Bytes := [80, 79, 83, 84, 32, 47, 32, 72, 84, 84, 80, 47, 49, 46, 49]

  /** `Transfer-Encoding: chunked` */
  const CODING_LINE: Bytes :=
    [84, 114, 97, 110, 115, 102, 101, 114, 45, 69, 110, 99, 111, 100, 105, 110, 103, 58, 32,
     99, 104, 117, 110, 107, 101, 100]

  function PostHeader(): Bytes {
    Block([POST_LINE, CODING_LINE]) + CRLF
  }

  /** A chunk `2`, `ab` and the terminal chunk. */
  const AB_BODY: Bytes := [50, 13, 10, 97, 98, 13, 10, 48, 13, 10, 13, 10]

  lemma PostIsChunked()
    ensures
      var header := PostHeader();
      HeaderEnd(header) == Some(|header|) && ContentLength(header).None? && IsChunked(header)
  {
    var ls := [POST_LINE, CODING_LINE];
    PostLinesAreLines();
    CodingLineAnnounces();
    hide IsLength, FieldLine, HeaderEnd, ContentLength, IsChunked, Block, AnnouncesChunks, LowerByte;
    hide POST_LINE, CODING_LINE;
    OtherField(POST_LINE);
    OtherField(CODING_LINE);
    assert CODING_LINE == ls[1] && forall l :: l in ls ==> l == POST_LINE || l == CODING_LINE;
    ChunkedHeader(ls, CODING_LINE);
  }

  lemma PostLinesAreLines()
    ensures FieldLine(POST_LINE) && FieldLine(CODING_LINE)
    ensures LowerByte(POST_LINE[0]) != 99 && LowerByte(CODING_LINE[0]) != 99
  {
  }

  /** A line that begins with another letter is no length. */
  lemma OtherField(l: Bytes)
    requires l != [] && LowerByte(l[0]) != 99
    ensures !IsLength(l)
  {
    hide IsLength;
    LengthLineIff(l);
  }

  lemma CodingLineAnnounces()
    ensures AnnouncesChunks(CODING_LINE)
  {
    var l, low := CODING_LINE, TRANSFER_ENCODING + ([32] + CHUNKED);
    hide Lower;
    ChunkedName();
    hide Spelt;
    assert |l| == |low| && forall i :: 0 <= i < |l| ==> LowerByte(l[i]) == low[i];
  }

  function PostRequest(): Request {
    Coded(PostHeader(), [Piece(PlainLine(2), [97, 98])], PlainLine(0))
  }

  lemma AbPiece()
    ensures Piece(PlainLine(2), [97, 98]).Good() && PlainLine(2).Line() == [50]
    ensures PlainLine(0).Says(0) && PlainLine(0).Line() == [48]
  {
    PlainLineSays(2);
    PlainLineSays(0);
    assert Format(2, 16) == [50] && Format(0, 16) == [48];
  }

  lemma PostWire()
    ensures PostRequest().BodyWire() == AB_BODY && PostRequest().Payload() == [97, 98]
  {
    AbPiece();
    hide SizeLine.Line, SizeLine.Says, Format, PlainLine;
    var p := Piece(PlainLine(2), [97, 98]);
    assert [p][1..] == [] && [97, 98] + [] == [97, 98];
    assert AB_BODY == ([50] + (CRLF + ([97, 98] + CRLF))) + ([48] + (CRLF + CRLF));
  }

  lemma AbBodyEnd()
    ensures Find(AB_BODY, LAST_CHUNK) == Some(5)
  {
    hide Find;
    var body := AB_BODY;
    assert LAST_CHUNK == body[5..];
    forall j | 0 <= j < 5 ensures !(LAST_CHUNK <= body[j..]) {
      assert body[j..][0] == body[j] && body[j..][2] == body[j + 2];
    }
    FindIs(body, LAST_CHUNK, 5);
  }

  lemma PostIsGood()
    ensures PostRequest().Good()
  {
    hide Find, SizeLine.Says, HeaderEnd, ContentLength, IsChunked, PostHeader, Chunked.Wire, DataOf, PlainLine;
    PostIsChunked();
    PostWire();
    AbPiece();
    AbBodyEnd();
  }

  /** However `POST / HTTP/1.1`, `Transfer-Encoding: chunked` with the body `ab` is cut, the loop takes just that. */
  lemma PostIsServed(chunks: seq<Bytes>)
    requires Flatten(chunks) == PostHeader() + AB_BODY && forall c :: c in chunks ==> c != []
    ensures Consistent(BEGIN) && Run(BEGIN, chunks).0 == [Extraction(PostHeader() + AB_BODY, [97, 98])]
  {
    PostIsGood();
    PostWire();
    hide Consistent, Request.Good, Run, PostHeader, Flatten;
    OneIsServed(PostRequest(), chunks);
  }
}
