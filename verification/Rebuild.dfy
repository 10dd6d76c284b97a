/** A rebuilt request parses again to what was meant. */
module Rebuild {
  import opened Bytes
  import opened Text
  import opened Requests

  /** A header line: not empty, without LF, ASCII. */
  predicate FieldLine(l: Bytes) {
    l != [] && LF !in l && Ascii(l)
  }

  ghost predicate FieldLines(ls: seq<Bytes>) {
    forall l :: l in ls ==> FieldLine(l)
  }

  /** Lines, each followed by CRLF. */
  function Block(ls: seq<Bytes>): Bytes
    decreases |ls|
  {
    if ls == [] then [] else ls[0] + (CRLF + Block(ls[1..]))
  }

  function Kept(ls: seq<Bytes>): seq<Bytes>
    decreases |ls|
  {
    if ls == [] then []
    else if Dropped(ls[0]) then Kept(ls[1..])
    else [ls[0]] + Kept(ls[1..])
  }

  // ----- Header blocks are lists of lines

  /** LF occurs only behind CR. */
  predicate LfAfterCr(h: Bytes) {
    forall i :: 0 <= i < |h| && h[i] == LF ==> i > 0 && h[i - 1] == CR
  }

  /** What the proxy cuts off the front of a connection: ASCII, up to the first blank line, not starting with one. */
  predicate HeaderBlock(h: Bytes) {
    Ascii(h) && LfAfterCr(h) && HeaderEnd(h) == Some(|h|) && !(CRLF <= h)
  }

  lemma LineBeforeCrlf(l: Bytes, y: Bytes)
    requires LF !in l
    ensures Find(l + (CRLF + y), CRLF) == Some(|l|)
  {
    hide Find;
    var t := l + (CRLF + y);
    assert t[|l|..] == CRLF + y;
    forall j | 0 <= j < |l| ensures !(CRLF <= t[j..]) {
      assert t[j..][1] == t[j + 1];
      assert j + 1 < |l| ==> t[j + 1] == l[j + 1];
      assert j + 1 == |l| ==> t[j + 1] == CR;
    }
    FindIs(t, CRLF, |l|);
  }

  predicate PairAt(h: Bytes, j: int) {
    0 <= j < |h| - 1 && h[j] == CR && h[j + 1] == LF
  }

  predicate BlankAt(h: Bytes, j: int) {
    0 <= j < |h| - 3 && h[j] == CR && h[j + 1] == LF && h[j + 2] == CR && h[j + 3] == LF
  }

  lemma PairIs(h: Bytes, j: nat)
    requires j <= |h|
    ensures CRLF <= h[j..] <==> PairAt(h, j)
  {
    var t := h[j..];
    assert |t| >= 2 ==> t[0] == h[j] && t[1] == h[j + 1];
  }

  lemma BlankIs(h: Bytes, j: nat)
    requires j <= |h|
    ensures BLANK <= h[j..] <==> BlankAt(h, j)
  {
    var t := h[j..];
    assert |t| >= 4 ==> t[0] == h[j] && t[1] == h[j + 1] && t[2] == h[j + 2] && t[3] == h[j + 3];
  }

  /** The header ends with the data exactly when the only blank line is the last. */
  lemma HeaderEndIs(h: Bytes)
    ensures HeaderEnd(h) == Some(|h|) <==> BlankAt(h, |h| - 4) && forall j :: 0 <= j < |h| - 4 ==> !BlankAt(h, j)
  {
    hide Find, BlankAt;
    forall j | 0 <= j <= |h| ensures BLANK <= h[j..] <==> BlankAt(h, j) {
      BlankIs(h, j);
    }
    if BlankAt(h, |h| - 4) && (forall j :: 0 <= j < |h| - 4 ==> !BlankAt(h, j)) && |h| >= 4 {
      FindIs(h, BLANK, |h| - 4);
    }
    TooShortForBlank(h);
  }

  lemma TooShortForBlank(h: Bytes)
    ensures BlankAt(h, |h| - 4) ==> |h| >= 4
  {
  }

  /** Where the first line of a header block ends. */
  lemma FirstPair(h: Bytes) returns (p: nat)
    requires BlankAt(h, |h| - 4) && LfAfterCr(h)
    ensures PairAt(h, p) && p <= |h| - 4 && Find(h, CRLF) == Some(p)
    ensures LF !in h[..p]
  {
    hide Find;
    forall j | 0 <= j <= |h| ensures CRLF <= h[j..] <==> PairAt(h, j) {
      PairIs(h, j);
    }
    assert PairAt(h, |h| - 4);
    assert CRLF <= h[|h| - 4..];
    p := Find(h, CRLF).value;
    assert CRLF <= h[p..];
    forall i | 0 <= i < p ensures h[i] != LF {
      if i > 0 { assert !(CRLF <= h[i - 1..]); }
    }
  }

  lemma CutAtPair(h: Bytes, p: nat)
    requires PairAt(h, p)
    ensures h == h[..p] + (CRLF + h[p + 2..])
  {
    assert h[p..p + 2] == CRLF;
  }

  lemma AsciiParts(h: Bytes, p: nat, q: nat)
    requires Ascii(h) && p <= q <= |h|
    ensures Ascii(h[..p]) && Ascii(h[q..])
  {
    assert forall x :: x in h[..p] || x in h[q..] ==> x in h;
  }

  lemma LfAfterCrInRest(h: Bytes, p: nat)
    requires LfAfterCr(h) && p + 2 < |h| && h[p + 1] == LF
    ensures LfAfterCr(h[p + 2..])
  {
    var rest := h[p + 2..];
    assert h[p + 2] != LF;
    forall i | 0 <= i < |rest| && rest[i] == LF ensures i > 0 && rest[i - 1] == CR {
      assert h[p + 2 + i] == LF;
    }
  }

  lemma BlanksInRest(h: Bytes, p: nat)
    requires BlankAt(h, |h| - 4) && PairAt(h, p) && p < |h| - 4 && forall j :: 0 <= j < |h| - 4 ==> !BlankAt(h, j)
    ensures var rest := h[p + 2..];
      && BlankAt(rest, |rest| - 4) && (forall j :: 0 <= j < |rest| - 4 ==> !BlankAt(rest, j))
      && !PairAt(rest, 0)
  {
    var rest := h[p + 2..];
    assert !BlankAt(h, p);
    assert p + 1 < |h| - 4;
    assert forall j :: 0 <= j < |rest| ==> rest[j] == h[p + 2 + j];
    forall j | 0 <= j < |rest| - 4 ensures !BlankAt(rest, j) {
      assert !BlankAt(h, p + 2 + j);
    }
  }

  lemma RestIsBlock(h: Bytes, p: nat)
    requires HeaderBlock(h) && PairAt(h, p) && p < |h| - 4
    ensures HeaderBlock(h[p + 2..])
  {
    AsciiParts(h, p, p + 2);
    LfAfterCrInRest(h, p);
    HeaderEndIs(h);
    BlanksInRest(h, p);
    HeaderEndIs(h[p + 2..]);
    PairIs(h[p + 2..], 0);
    assert h[p + 2..][0..] == h[p + 2..];
    hide Ascii, HeaderEnd, LfAfterCr, BlankAt, PairAt;
  }

  /** The first line of a header block, and what is behind it. */
  lemma FirstLine(h: Bytes) returns (l: Bytes, rest: Bytes)
    requires HeaderBlock(h)
    ensures FieldLine(l) && h == l + (CRLF + rest)
    ensures rest == CRLF || HeaderBlock(rest)
  {
    HeaderEndIs(h);
    var p := FirstPair(h);
    AsciiParts(h, p, p + 2);
    hide Ascii, HeaderEnd, Find, LfAfterCr;
    l, rest := h[..p], h[p + 2..];
    CutAtPair(h, p);
    PairIs(h, 0);
    assert h[0..] == h;
    if p == |h| - 4 {
      assert rest == CRLF;
    } else {
      RestIsBlock(h, p);
    }
  }

  /** Every header block is a nonempty list of header lines and a blank line. */
  lemma {:induction false} BlockOfLines(h: Bytes) returns (ls: seq<Bytes>)
    requires HeaderBlock(h)
    ensures ls != [] && FieldLines(ls) && h == Block(ls) + CRLF
    decreases |h|
  {
    hide HeaderBlock, FieldLine;
    var l, rest := FirstLine(h);
    if rest == CRLF {
      ls := [l];
      assert Block([l]) == l + (CRLF + Block([]));
      assert h == Block(ls) + CRLF;
    } else {
      var more := BlockOfLines(rest);
      ls := [l] + more;
      assert ls[1..] == more;
      assert l + (CRLF + (Block(more) + CRLF)) == l + (CRLF + Block(more)) + CRLF;
    }
  }

  lemma BlockCons(ls: seq<Bytes>, y: Bytes)
    requires ls != []
    ensures Block(ls) + y == ls[0] + CRLF + (Block(ls[1..]) + y)
    ensures |Block(ls)| == |ls[0]| + 2 + |Block(ls[1..])|
  {
    Assoc(ls[0] + CRLF, Block(ls[1..]), y);
  }

  lemma HeadLine(ls: seq<Bytes>)
    requires FieldLines(ls) && ls != []
    ensures ls[0] != [] && LF !in ls[0] && FieldLines(ls[1..])
  {
    hide Ascii;
    assert ls[0] in ls;
  }

  lemma NoBlock()
    ensures Block([]) == [] && Kept([]) == []
  {
  }

  // ----- What the rebuild writes

  lemma ExchangedLine(l: Bytes, y: Bytes, n: nat)
    requires LF !in l
    ensures Exchanged(l + CRLF + y, n) ==
      if Dropped(l) then Exchanged(y, n) else if l == [] then Injected(n) else l + CRLF + Exchanged(y, n)
  {
    hide Dropped, Injected, Find;
    var h := l + CRLF + y;
    Assoc(l, CRLF, y);
    LineBeforeCrlf(l, y);
    assert h[0..] == h && h[..|l|] == l && h[|l| + 2..] == y;
    assert LineEnd(h, 0) == |l| && From(h, |l| + 2) == y;
  }

  lemma KeptCons(ls: seq<Bytes>, z: Bytes)
    requires ls != []
    ensures Block(Kept(ls)) + z ==
      if Dropped(ls[0]) then Block(Kept(ls[1..])) + z else ls[0] + CRLF + (Block(Kept(ls[1..])) + z)
  {
    hide Dropped;
    if !Dropped(ls[0]) {
      assert Kept(ls)[0] == ls[0] && Kept(ls)[1..] == Kept(ls[1..]);
      BlockCons(Kept(ls), z);
    }
  }

  lemma {:induction false} ExchangedLines(ls: seq<Bytes>, n: nat)
    requires FieldLines(ls)
    ensures Exchanged(Block(ls) + CRLF, n) == Block(Kept(ls)) + Injected(n)
    decreases |ls|
  {
    hide Dropped, Injected, Exchanged, FieldLines, Block, Kept;
    if ls == [] {
      NoBlock();
      BlankIsNotDropped();
      ExchangedLine([], [], n);
      assert [] + CRLF + [] == [] + CRLF && [] + Injected(n) == Injected(n);
    } else {
      HeadLine(ls);
      BlockCons(ls, CRLF);
      ExchangedLine(ls[0], Block(ls[1..]) + CRLF, n);
      ExchangedLines(ls[1..], n);
      KeptCons(ls, Injected(n));
    }
  }

  lemma BlankIsNotDropped()
    ensures !Dropped([])
  {
  }

  /** The lines of the rebuilt header. */
  function NewLines(ls: seq<Bytes>, n: nat): seq<Bytes> {
    Kept(ls) + [LengthField(n), IDENTITY_FIELD]
  }

  lemma {:induction false} BlockAppend(a: seq<Bytes>, b: seq<Bytes>)
    ensures Block(a + b) == Block(a) + Block(b)
    decreases |a|
  {
    if a == [] {
      assert a + b == b;
    } else {
      assert (a + b)[1..] == a[1..] + b;
      BlockAppend(a[1..], b);
      assert a[0] + (CRLF + (Block(a[1..]) + Block(b))) == a[0] + (CRLF + Block(a[1..])) + Block(b);
    }
  }

  lemma RebuiltIsBlock(ls: seq<Bytes>, n: nat)
    ensures Block(Kept(ls)) + Injected(n) == Block(NewLines(ls, n)) + CRLF
  {
    hide LengthField, Block, Kept;
    var f, g := LengthField(n), IDENTITY_FIELD;
    BlockAppend(Kept(ls), [f, g]);
    assert [f, g][1..] == [g];
    assert [g][1..] == [f][1..];
    NoBlock();
    BlockCons([f, g], CRLF);
    BlockCons([g], CRLF);
    assert [] + CRLF == CRLF;
    InjectedIs(n);
    Assoc(Block(Kept(ls)), Block([f, g]), CRLF);
  }

  lemma InjectedIs(n: nat)
    ensures Injected(n) == LengthField(n) + CRLF + (IDENTITY_FIELD + CRLF + CRLF)
  {
    hide LengthField;
  }

  lemma LengthFieldIsLine(n: nat)
    ensures FieldLine(LengthField(n)) && FieldLine(IDENTITY_FIELD)
  {
    DecimalDigits(n);
    var l, d := LengthField(n), Format(n, 10);
    forall b | b in l ensures b < 0x80 && b != LF {
      assert b in CONTENT_LENGTH_FIELD || b in d;
    }
  }

  lemma {:induction false} KeptAreLines(ls: seq<Bytes>)
    requires FieldLines(ls)
    ensures FieldLines(Kept(ls)) && forall l :: l in Kept(ls) ==> !Dropped(l)
    decreases |ls|
  {
    hide Dropped, FieldLine;
    if ls == [] {
    } else {
      KeptAreLines(ls[1..]);
    }
  }

  // ----- Parsing it again

  lemma NoneBeforeDrop(t: Bytes, w: Bytes, n: nat)
    requires NoneBefore(t, w, n) && 0 < n <= |t|
    ensures !(w <= t) && NoneBefore(t[1..], w, n - 1)
  {
    assert t[0..] == t;
    forall j | 0 <= j < n - 1 && j <= |t[1..]| ensures !(w <= t[1..][j..]) {
      assert t[1..][j..] == t[j + 1..];
    }
  }

  lemma FindCons(t: Bytes, w: Bytes)
    requires t != [] && !(w <= t) && Find(t[1..], w).Some?
    ensures Find(t, w) == Some(Find(t[1..], w).value + 1)
  {
    hide NoneBefore;
  }

  lemma {:induction false} FindBehind(u: Bytes, t: Bytes, w: Bytes)
    requires Find(t, w).Some? && NoneBefore(u + t, w, |u|)
    ensures Find(u + t, w) == Some(|u| + Find(t, w).value)
    decreases |u|
  {
    hide NoneBefore, Find;
    if u == [] {
      assert u + t == t;
    } else {
      NoneBeforeDrop(u + t, w, |u|);
      assert (u + t)[1..] == u[1..] + t;
      FindBehind(u[1..], t, w);
      FindCons(u + t, w);
    }
  }

  /** Bytes without LF open no blank line, nor does a line break in front of another line. */
  lemma NoBlankInLine(l: Bytes, after: Bytes)
    requires LF !in l
    ensures NoneBefore(l + CRLF + after, BLANK, |l|)
    ensures |after| >= 2 && !PairAt(after, 0) ==> NoneBefore(l + CRLF + after, BLANK, |l| + 2)
  {
    var t := l + CRLF + after;
    assert t[|l|] == CR && t[|l| + 1] == LF;
    assert forall i :: 0 <= i < |l| ==> t[i] == l[i];
    assert |after| >= 2 ==> t[|l| + 2] == after[0] && t[|l| + 3] == after[1];
    forall j | 0 <= j < |l| + 2 ensures BLANK <= t[j..] <==> BlankAt(t, j) {
      BlankIs(t, j);
    }
  }

  lemma BlankFollows(y: Bytes)
    ensures Find(CRLF + (CRLF + y), BLANK) == Some(0)
  {
  }

  /** The first blank line of a block of lines is the one behind them. */
  lemma {:induction false} BlankBehind(ls: seq<Bytes>, y: Bytes)
    requires ls != [] && FieldLines(ls)
    ensures Find(Block(ls) + (CRLF + y), BLANK) == Some(|Block(ls)| - 2)
    decreases |ls|
  {
    hide Find, NoneBefore, PairAt, Block, FieldLines;
    var l, rest := ls[0], ls[1..];
    HeadLine(ls);
    var after := Block(rest) + (CRLF + y);
    BlockCons(ls, CRLF + y);
    NoBlankInLine(l, after);
    if rest == [] {
      NoBlock();
      assert after == CRLF + y;
      Assoc(l, CRLF, after);
      BlankFollows(y);
      FindBehind(l, CRLF + after, BLANK);
    } else {
      BlankBehind(rest, y);
      NotBlankYet(rest, y);
      FindBehind(l + CRLF, after, BLANK);
    }
  }

  lemma NotBlankYet(ls: seq<Bytes>, y: Bytes)
    requires ls != [] && FieldLines(ls)
    ensures var t := Block(ls) + (CRLF + y); |t| >= 2 && !PairAt(t, 0)
  {
    hide Ascii;
    var l, t := ls[0], Block(ls) + (CRLF + y);
    assert l in ls;
    assert t == l + (CRLF + (Block(ls[1..]) + (CRLF + y)));
    assert |l| >= 2 ==> t[1] == l[1];
  }

  lemma LinesStep(l: Bytes, y: Bytes)
    requires LF !in l
    ensures Lines(l + (CRLF + y)) == [l] + Lines(y)
  {
    hide Find;
    var t := l + (CRLF + y);
    assert t == l + [CR] + ([LF] + y);
    SingleAt(l + [CR], LF, y);
    assert t[..|l| + 1] == l + [CR] && t[|l| + 2..] == y && (l + [CR])[..|l|] == l;
  }

  lemma {:induction false} LinesOfBlock(ls: seq<Bytes>)
    requires FieldLines(ls)
    ensures Lines(Block(ls) + CRLF) == ls + [[]]
    decreases |ls|
  {
    hide Lines, Ascii;
    if ls == [] {
      assert Block(ls) + CRLF == [] + (CRLF + []);
      LinesStep([], []);
      NoLines();
    } else {
      var l, y := ls[0], Block(ls[1..]) + CRLF;
      assert l in ls;
      assert Block(ls) + CRLF == l + (CRLF + y);
      LinesStep(l, y);
      LinesOfBlock(ls[1..]);
      assert [l] + (ls[1..] + [[]]) == ls + [[]];
    }
  }

  lemma NoLines()
    ensures Lines([]) == []
  {
  }

  lemma {:induction false} BlockIsAscii(ls: seq<Bytes>)
    requires FieldLines(ls)
    ensures Ascii(Block(ls))
    decreases |ls|
  {
    if ls == [] {
    } else {
      assert ls[0] in ls;
      BlockIsAscii(ls[1..]);
    }
  }

  lemma LowerConcat(a: Bytes, b: Bytes)
    ensures Lower(a + b) == Lower(a) + Lower(b)
  {
  }

  lemma LowerDigits(d: Bytes)
    requires forall b :: b in d ==> 48 <= b <= 57
    ensures Lower(d) == d
  {
    forall i | 0 <= i < |d| ensures Lower(d)[i] == d[i] {
      assert d[i] in d;
    }
  }

  lemma LowerFieldName()
    ensures Lower(CONTENT_LENGTH_FIELD) == CONTENT_LENGTH + [32]
  {
  }

  lemma TrimDigits(d: Bytes)
    requires d != [] && forall b :: b in d ==> 48 <= b <= 57
    ensures Trim([32] + d) == d
  {
    assert d[0] in d && d[|d| - 1] in d;
    TrimNothing(d);
    var t := [32] + d;
    assert t[1..] == d && SpaceInFront(t) == 1 && SpaceInFront(d) == 0;
    assert TrimFront(t) == TrimFront(d) == d;
  }

  /** The length field says its number. */
  lemma LengthFieldParses(n: nat)
    requires n <= USIZE_MAX
    ensures CONTENT_LENGTH <= Lower(LengthField(n))
    ensures ParseUsize(Trim(Lower(LengthField(n))[|CONTENT_LENGTH|..]), 10) == Some(n)
  {
    hide Trim, ParseUsize, Format, Lower;
    var d := Format(n, 10);
    DecimalDigits(n);
    LowerConcat(CONTENT_LENGTH_FIELD, d);
    LowerDigits(d);
    LowerFieldName();
    var low := Lower(LengthField(n));
    assert low == CONTENT_LENGTH + [32] + d == CONTENT_LENGTH + ([32] + d);
    assert low[|CONTENT_LENGTH|..] == [32] + d;
    TrimDigits(d);
    ParseOfFormat(n, 10);
  }

  lemma {:induction false} DecimalDigits(n: nat)
    ensures forall b :: b in Format(n, 10) ==> 48 <= b <= 57
  {
    if n < 10 {
    } else {
      DecimalDigits(n / 10);
    }
  }

  lemma {:induction false} LengthFound(kept: seq<Bytes>, rest: seq<Bytes>, n: nat)
    requires n <= USIZE_MAX && forall l :: l in kept ==> !Dropped(l)
    ensures LengthIn(kept + ([LengthField(n)] + rest)) == Some(n)
    decreases |kept|
  {
    hide LengthField, Trim, ParseUsize;
    var all := kept + ([LengthField(n)] + rest);
    if kept == [] {
      assert all[0] == LengthField(n);
      LengthFieldParses(n);
    } else {
      assert kept[0] in kept && all[0] == kept[0] && all[1..] == kept[1..] + ([LengthField(n)] + rest);
      LengthFound(kept[1..], rest, n);
    }
  }

  lemma InjectedAreNotChunked(n: nat)
    ensures !SaysChunked(LengthField(n)) && !SaysChunked(IDENTITY_FIELD) && !SaysChunked([])
  {
    assert LengthField(n)[0] == 67 && Lower(LengthField(n))[0] == 99;
  }

  /**
   * A rebuilt request re-parses to what was meant: for every header block and every body, the new header ends
   * where the body starts, states the body's length, is not chunked, and has all other lines in their order.
   */
  lemma RebuiltReparses(h: Bytes, body: Bytes) returns (ls: seq<Bytes>)
    requires HeaderBlock(h) && |body| <= USIZE_MAX
    ensures FieldLines(ls) && h == Block(ls) + CRLF
    ensures
      var r := Rebuilt(h, body);
      var end := |r| - |body|;
      && HeaderEnd(r) == Some(end) && r[end..] == body
      && ContentLength(r[..end]) == Some(|body|)
      && !IsChunked(r[..end])
      && Lines(r[..end]) == NewLines(ls, |body|) + [[]]
  {
    ls := BlockOfLines(h);
    AsciiIsUtf8(h);
    hide ValidUtf8, HeaderBlock, Lines, IsChunked, ContentLength, NewLines, Block, FieldLines, HeaderEnd, Rebuilt;
    var lines := NewLines(ls, |body|);
    RebuiltText(h, ls, body);
    NewLinesAreLines(ls, |body|);
    NewHeaderParses(ls, |body|);
    HeaderEndsAtBody(lines, body);
    CutConcat(Block(lines) + CRLF, body);
  }

  /** A blank line in front ends the header there: every line behind it is lost. */
  lemma LeadingBlankLosesHeader(h: Bytes, body: Bytes)
    requires Ascii(h) && CRLF <= h
    ensures Rebuilt(h, body) == Injected(|body|) + body
  {
    hide Injected;
    AsciiIsUtf8(h);
    assert h[0..] == h;
    FindIs(h, CRLF, 0);
    assert h[..0] == [];
    BlankIsNotDropped();
  }

  lemma RebuiltText(h: Bytes, ls: seq<Bytes>, body: Bytes)
    requires FieldLines(ls) && h == Block(ls) + CRLF && ValidUtf8(h)
    ensures Rebuilt(h, body) == Block(NewLines(ls, |body|)) + CRLF + body
  {
    hide ValidUtf8, FieldLines, Exchanged, Block, Kept, Injected, NewLines;
    ExchangedLines(ls, |body|);
    RebuiltIsBlock(ls, |body|);
  }

  lemma HeaderEndsAtBody(lines: seq<Bytes>, body: Bytes)
    requires lines != [] && FieldLines(lines)
    ensures var head := Block(lines) + CRLF; HeaderEnd(head + body) == Some(|head|)
  {
    hide Block, Find, FieldLines;
    Assoc(Block(lines), CRLF, body);
    BlankBehind(lines, body);
  }

  lemma CutConcat(a: Bytes, b: Bytes)
    ensures (a + b)[..|a|] == a && (a + b)[|a|..] == b
  {
  }

  lemma NewLinesAreLines(ls: seq<Bytes>, n: nat)
    requires FieldLines(ls)
    ensures NewLines(ls, n) != [] && FieldLines(NewLines(ls, n))
  {
    hide FieldLine, LengthField, Dropped;
    KeptAreLines(ls);
    LengthFieldIsLine(n);
  }

  /** The new header block on its own. */
  lemma NewHeaderParses(ls: seq<Bytes>, n: nat)
    requires FieldLines(ls) && n <= USIZE_MAX
    ensures
      var head := Block(NewLines(ls, n)) + CRLF;
      Lines(head) == NewLines(ls, n) + [[]] && ContentLength(head) == Some(n) && !IsChunked(head)
  {
    hide ValidUtf8, Lines, LengthField, Dropped, FieldLine, SaysChunked, LengthIn;
    var lines := NewLines(ls, n);
    var head := Block(lines) + CRLF;
    NewLinesAreLines(ls, n);
    BlockIsAscii(lines);
    assert Ascii(head);
    AsciiIsUtf8(head);
    LinesOfBlock(lines);
    KeptAreLines(ls);
    assert lines + [[]] == Kept(ls) + ([LengthField(n)] + [IDENTITY_FIELD, []]);
    LengthFound(Kept(ls), [IDENTITY_FIELD, []], n);
    InjectedAreNotChunked(n);
    KeptAreNotChunked(ls);
  }

  lemma KeptAreNotChunked(ls: seq<Bytes>)
    requires forall l :: l in Kept(ls) ==> !Dropped(l)
    ensures forall l :: l in Kept(ls) ==> !SaysChunked(l)
  {
  }
}
