/** Request framing: finding the header, its length and coding, and rebuilding a request around a new body. */
module Requests {
  import opened Bytes
  import opened Text

  const BLANK: Bytes := [13, 10, 13, 10]

  /** Offset just behind the first blank line. */
  function HeaderEnd(data: Bytes): (r: Option<nat>)
    ensures r.Some? ==> 4 <= r.value <= |data|
  {
    match Find(data, BLANK)
    case None => None
    case Some(p) => Some(p + 4)
  }

  method FindHeaderEnd(data: Bytes) returns (r: Option<nat>)
    ensures r == HeaderEnd(data)
  {
    var n := if |data| >= 3 then |data| - 3 else 0;
    for i := 0 to n
      invariant forall j :: 0 <= j < i ==> !(BLANK <= data[j..])
    {
      if data[i] == CR && data[i + 1] == LF && data[i + 2] == CR && data[i + 3] == LF {
        FindIs(data, BLANK, i);
        return Some(i + 4);
      }
      assert data[i..][0] == data[i] && data[i..][1] == data[i + 1];
      assert data[i..][2] == data[i + 2] && data[i..][3] == data[i + 3];
    }
    return None;
  }

  const CONTENT_LENGTH: Bytes := [99, 111, 110, 116, 101, 110, 116, 45, 108, 101, 110, 103, 116, 104, 58]
  const TRANSFER_ENCODING: Bytes :=
    [116, 114, 97, 110, 115, 102, 101, 114, 45, 101, 110, 99, 111, 100, 105, 110, 103, 58]
  const ACCEPT_ENCODING: Bytes := [97, 99, 99, 101, 112, 116, 45, 101, 110, 99, 111, 100, 105, 110, 103, 58]
  const CHUNKED: Bytes := [99, 104, 117, 110, 107, 101, 100]

  /** The number on the first length line; a bad number there counts as none. */
  function LengthIn(lines: seq<Bytes>): Option<nat>
    decreases |lines|
  {
    if lines == [] then None
    else if CONTENT_LENGTH <= Lower(lines[0]) then ParseUsize(Trim(Lower(lines[0])[|CONTENT_LENGTH|..]), 10)
    else LengthIn(lines[1..])
  }

  function ContentLength(headers: Bytes): Option<nat> {
    if ValidUtf8(headers) then LengthIn(Lines(headers)) else None
  }

  method ParseContentLength(headers: Bytes) returns (r: Option<nat>)
    ensures r == ContentLength(headers)
  {
    hide ValidUtf8, Lines, ParseUsize, Trim;
    if !ValidUtf8(headers) { return None; }
    var lines := Lines(headers);
    assert lines[0..] == lines;
    for i := 0 to |lines|
      invariant LengthIn(lines[i..]) == LengthIn(lines)
    {
      assert lines[i..][0] == lines[i] && lines[i..][1..] == lines[i + 1..];
      var lower := Lower(lines[i]);
      if CONTENT_LENGTH <= lower { return ParseUsize(Trim(lower[|CONTENT_LENGTH|..]), 10); }
    }
    return None;
  }

  predicate SaysChunked(line: Bytes) {
    TRANSFER_ENCODING <= Lower(line) && Find(Lower(line), CHUNKED).Some?
  }

  predicate IsChunked(headers: Bytes) {
    ValidUtf8(headers) && exists l :: l in Lines(headers) && SaysChunked(l)
  }

  // ----- Rebuilding

  predicate Dropped(line: Bytes) {
    var lower := Lower(line);
    TRANSFER_ENCODING <= lower || CONTENT_LENGTH <= lower || ACCEPT_ENCODING <= lower
  }

  const CONTENT_LENGTH_FIELD: Bytes := [67, 111, 110, 116, 101, 110, 116, 45, 76, 101, 110, 103, 116, 104, 58, 32]
  const IDENTITY_FIELD: Bytes :=
    [65, 99, 99, 101, 112, 116, 45, 69, 110, 99, 111, 100, 105, 110, 103, 58, 32,
     105, 100, 101, 110, 116, 105, 116, 121]

  function LengthField(n: nat): Bytes {
    CONTENT_LENGTH_FIELD + Format(n, 10)
  }

  /** The rest of the block from `pos`, which may have stepped past its end. */
  function From(h: Bytes, pos: nat): Bytes {
    if pos <= |h| then h[pos..] else []
  }

  /** End of the line that starts at `pos`. */
  function LineEnd(h: Bytes, pos: nat): (e: nat)
    requires pos <= |h|
    ensures pos <= e <= |h|
  {
    match Find(h[pos..], CRLF)
    case None => |h|
    case Some(p) => pos + p
  }

  function Injected(n: nat): Bytes {
    LengthField(n) + CRLF + IDENTITY_FIELD + CRLF + CRLF
  }

  /** The header block with the three fields exchanged, line by line up to the first blank one. */
  function Exchanged(h: Bytes, bodyLen: nat): Bytes
    decreases |h|
  {
    if h == [] then []
    else
      var e := LineEnd(h, 0);
      var line := h[..e];
      if Dropped(line) then Exchanged(From(h, e + 2), bodyLen)
      else if line == [] then Injected(bodyLen)
      else line + CRLF + Exchanged(From(h, e + 2), bodyLen)
  }

  function Rebuilt(headers: Bytes, body: Bytes): Bytes {
    if ValidUtf8(headers) then Exchanged(headers, |body|) + body else headers + body
  }

  lemma LineEndFrom(h: Bytes, pos: nat)
    requires pos <= |h|
    ensures
      var e := LineEnd(h, pos);
      && e == pos + LineEnd(h[pos..], 0) && From(h[pos..], e - pos + 2) == From(h, e + 2)
      && h[pos..][..e - pos] == h[pos..e]
  {
    hide Find;
    assert h[pos..][0..] == h[pos..];
  }

  lemma ExchangedFrom(h: Bytes, pos: nat, n: nat)
    requires pos < |h|
    ensures
      var e := LineEnd(h, pos);
      var line, rest := h[pos..e], Exchanged(From(h, e + 2), n);
      Exchanged(From(h, pos), n) ==
      if Dropped(line) then rest else if line == [] then Injected(n) else line + CRLF + rest
  {
    hide Dropped, LineEnd, LengthField;
    LineEndFrom(h, pos);
  }

  method RebuildRequestWithContentLength(headers: Bytes, body: Bytes) returns (result: Bytes)
    ensures result == Rebuilt(headers, body)
  {
    hide Exchanged, Dropped, LineEnd, From, ValidUtf8, Injected;
    if !ValidUtf8(headers) { return headers + body; }
    result := [];
    var pos: nat := 0;
    ghost var whole := Exchanged(headers, |body|);
    FromEnds(headers, 0);
    while pos < |headers|
      invariant result + Exchanged(From(headers, pos), |body|) == whole
      decreases |headers| - pos
    {
      ExchangedFrom(headers, pos, |body|);
      var lineEnd := LineEnd(headers, pos);
      var line := headers[pos..lineEnd];
      if Dropped(line) {
      } else if line == [] {
        return result + Injected(|body|) + body;
      } else {
        Assoc(result, line + CRLF, Exchanged(From(headers, lineEnd + 2), |body|));
        result := result + (line + CRLF);
      }
      pos := lineEnd + 2;
    }
    FromEnds(headers, pos);
    NothingExchanged(|body|);
    assert result + [] == result;
    return result + body;
  }

  lemma FromEnds(h: Bytes, pos: nat)
    ensures From(h, 0) == h
    ensures pos >= |h| ==> From(h, pos) == []
  {
  }

  lemma NothingExchanged(n: nat)
    ensures Exchanged([], n) == []
  {
  }
}
