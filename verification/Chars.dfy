/** The stream never splits a character: valid UTF-8 goes in, valid UTF-8 comes out, piece by piece. */
module Chars {
  import opened Bytes
  import opened Text
  import opened Utf8
  import opened Vault
  import opened Unmask
  import opened Rescan
  import opened Holdback
  import opened Streaming

  // ----- Boundaries

  /** A position is a character boundary exactly when valid text may be cut there. */
  lemma BoundaryIff(x: Bytes, p: nat)
    requires ValidUtf8(x) && p <= |x|
    ensures IsCharBoundary(x, p) <==> ValidUtf8(x[..p]) && ValidUtf8(x[p..])
  {
    hide ValidUtf8;
    CutsAtStarts(x, p);
    if p == 0 { assert x[..0] == [] && x[0..] == x && ValidUtf8([]) by { NothingIsValid(); } }
  }

  lemma NothingIsValid()
    ensures ValidUtf8([])
  {
  }

  /** Stepping back to a boundary keeps both parts whole. */
  lemma BoundaryCuts(x: Bytes, p: nat)
    requires ValidUtf8(x) && p <= |x|
    ensures ValidUtf8(x[..CharBoundary(x, p)]) && ValidUtf8(x[CharBoundary(x, p)..])
  {
    hide ValidUtf8, IsCharBoundary;
    BoundaryIff(x, CharBoundary(x, p));
  }

  lemma {:induction false} BoundaryNear(x: Bytes, p: nat) returns (r: nat)
    requires ValidUtf8(x) && p <= |x|
    ensures p <= r + 3 && r <= p && (r == |x| || r == 0 || !Cont(x[r]))
    decreases |x|
  {
    if x == [] {
      r := 0;
    } else {
      var n := CharLen(x);
      if p < n {
        r := 0;
      } else {
        var q := BoundaryNear(x[n..], p - n);
        r := n + q;
        if q == 0 && x[n..] != [] { CharBytes(x[n..]); }
      }
    }
  }

  /** In valid text the step back is at most three bytes. */
  lemma BoundaryIsNear(x: Bytes, p: nat)
    requires ValidUtf8(x) && p <= |x|
    ensures CharBoundary(x, p) + 3 >= p
  {
    hide ValidUtf8;
    var r := BoundaryNear(x, p);
    assert IsCharBoundary(x, r);
  }

  /** Without an open token, no more is held back than the longest key and a character. */
  lemma HoldsLittle(v: VaultState, x: Bytes, prefixes: set<Pair>)
    requires ValidUtf8(x) && OpenTagPos(x).None?
    ensures |x| - FlushPoint(v, x, prefixes) <= v.maxKeyLen + 3
  {
    hide ValidUtf8, HasTrigger, OpenTagPos;
    if |x| > v.maxKeyLen { BoundaryIsNear(x, |x| - v.maxKeyLen); }
  }

  /** The largest character boundary that leaves room for the longest key behind it. */
  ghost predicate TailStart(x: Bytes, maxKeyLen: nat, b: nat) {
    && b <= |x| && IsCharBoundary(x, b) && (b == 0 || |x| - b >= maxKeyLen)
    && forall q :: b < q <= |x| && IsCharBoundary(x, q) ==> |x| - q < maxKeyLen
  }

  /** Exactly what leaves: all before a tag that stays open; else all before the tail if a key may start in it. */
  lemma FlushPointIs(v: VaultState, x: Bytes, b: nat)
    requires TailStart(x, v.maxKeyLen, b)
    ensures
      var s := FlushPoint(v, x, KeyPrefixes(v.syntheticKeys));
      && (forall p :: StaysOpen(x, p) ==> s == p)
      && ((forall p :: !StaysOpen(x, p)) ==>
            s == if exists k :: k in v.syntheticKeys && StartsIn(k, x[b..]) then b else |x|)
  {
    var prefixes := KeyPrefixes(v.syntheticKeys);
    TriggersAreKeyStarts(x[b..], v.syntheticKeys);
    TailStartIs(x, v.maxKeyLen, b);
    forall p | StaysOpen(x, p) ensures FlushPoint(v, x, prefixes) == p {
      OpenTagPosIff(x, p);
      TagIsBoundary(x, p);
    }
    match OpenTagPos(x)
    case Some(p) => OpenTagPosIff(x, p);
    case None =>
  }

  lemma TailStartIs(x: Bytes, maxKeyLen: nat, b: nat)
    requires TailStart(x, maxKeyLen, b)
    ensures b == if |x| > maxKeyLen then CharBoundary(x, |x| - maxKeyLen) else 0
  {
    if |x| > maxKeyLen {
      var r := CharBoundary(x, |x| - maxKeyLen);
      assert IsCharBoundary(x, b) && IsCharBoundary(x, r);
    }
  }

  lemma TagIsBoundary(x: Bytes, p: nat)
    requires p <= |x| && OPEN <= x[p..]
    ensures IsCharBoundary(x, p) && CharBoundary(x, p) == p
  {
    assert x[p..][0] == x[p];
  }

  // ----- Rewriting

  /** Keys and originals are text. */
  ghost predicate TextVault(v: VaultState) {
    && v.Aligned()
    && (forall k :: k in v.syntheticKeys ==> ValidUtf8(k))
    && (forall o :: o in Restorable(v) ==> ValidUtf8(o))
  }

  /** No key starts inside a character. */
  lemma NoKeyInChar(v: VaultState, t: Bytes, j: nat)
    requires TextVault(v) && 0 < j < CharLen(t)
    ensures BestKey(v.syntheticKeys, t[j..]).None?
  {
    hide ValidUtf8, CharLen, Restorable;
    CharBytes(t);
    var keys := v.syntheticKeys;
    forall i | 0 <= i < |keys| && keys[i] != [] ensures !(keys[i] <= t[j..]) {
      assert keys[i] in keys && t[j..][0] == t[j];
      if Cont(keys[i][0]) { ContIsNoChar(keys[i]); }
    }
  }

  /** A character in which no key starts is copied whole. */
  lemma {:induction false} CopyChar(v: VaultState, t: Bytes, m: nat)
    requires TextVault(v) && t != [] && BestKey(v.syntheticKeys, t).None? && 0 < m <= CharLen(t)
    ensures Replace(v, t) == t[..m] + Replace(v, t[m..])
    decreases m
  {
    assert v.Aligned();
    hide CharLen, BestKey, Replace, TextVault;
    if m == 1 {
      ReplaceCopy(v, t);
      MoveByte(t, 0);
      EmptyFront([t[0]]);
    } else {
      CopyChar(v, t, m - 1);
      NoKeyInChar(v, t, m - 1);
      MoveByte(t, m - 1);
      ReplaceCopy(v, t[m - 1..]);
      Assoc(t[..m - 1], [t[m - 1]], Replace(v, t[m..]));
    }
  }

  lemma OneCharIsValid(t: Bytes)
    requires CharLen(t) > 0
    ensures ValidUtf8(t[..CharLen(t)])
  {
    var n := CharLen(t);
    CharInPrefix(t, n);
    hide CharLen;
    assert t[..n][n..] == [];
  }

  lemma ValidStep(t: Bytes)
    requires ValidUtf8(t) && t != []
    ensures CharLen(t) > 0 && ValidUtf8(t[CharLen(t)..])
  {
  }

  lemma {:induction false} ReplaceKeepsUtf8(v: VaultState, t: Bytes)
    requires TextVault(v) && ValidUtf8(t)
    ensures ValidUtf8(Replace(v, t))
    decreases |t|
  {
    assert v.Aligned();
    if t == [] {
    } else {
      hide ValidUtf8, CharLen, BestKey, Replace, Restorable;
      var r := BestKey(v.syntheticKeys, t);
      if r.Some? {
        var k, o := v.syntheticKeys[r.value], v.originalValues[r.value];
        var rest := t[|k|..];
        assert k in v.syntheticKeys && t == k + rest;
        OriginalsAreRestorable(v, r.value);
        RestIsValid(k, rest);
        ReplaceKeepsUtf8(v, rest);
        ReplaceKeyInFront(v, t, r.value);
        Utf8Concat(o, Replace(v, rest));
      } else {
        ValidStep(t);
        var n := CharLen(t);
        CopyChar(v, t, n);
        OneCharIsValid(t);
        ReplaceKeepsUtf8(v, t[n..]);
        Utf8Concat(t[..n], Replace(v, t[n..]));
      }
    }
  }

  lemma OriginalsAreRestorable(v: VaultState, i: nat)
    requires i < |v.originalValues|
    ensures v.originalValues[i] in Restorable(v)
  {
  }

  /** Valid text may be cut around an ASCII part. */
  lemma CutAroundAscii(t: Bytes, p: nat, w: Bytes)
    requires ValidUtf8(t) && p <= |t| && w <= t[p..] && w != [] && Ascii(w)
    ensures ValidUtf8(t[..p]) && ValidUtf8(t[p..])
    ensures ValidUtf8(t[..p + |w|]) && ValidUtf8(t[p + |w|..])
  {
    hide ValidUtf8;
    assert p < |t| && t[p] == t[p..][0] == w[0] && w[0] in w;
    CutsAtStarts(t, p);
    AsciiIsUtf8(w);
    assert t[p..] == w + t[p + |w|..] && t[..p + |w|] == t[..p] + w;
    RestIsValid(w, t[p + |w|..]);
    Utf8Concat(t[..p], w);
  }

  lemma ResolveKeepsUtf8(v: VaultState, token: Bytes)
    requires TextVault(v) && ValidUtf8(token)
    ensures ValidUtf8(Resolve(v, token))
  {
    hide ValidUtf8, ExtractAttr, ExtractInner;
  }

  lemma {:induction false} CascadeKeepsUtf8(v: VaultState, t: Bytes)
    requires TextVault(v) && ValidUtf8(t)
    ensures ValidUtf8(Cascade(v, t))
    decreases |t|, 1
  {
    assert v.Aligned();
    hide ValidUtf8, Replace, TextVault, CascadeTag, Find;
    match Find(t, OPEN)
    case None =>
      ReplaceKeepsUtf8(v, t);
    case Some(p) =>
      CutAroundAscii(t, p, OPEN);
      ReplaceKeepsUtf8(v, t[..p]);
      CascadeTagKeepsUtf8(v, t[p..]);
      Utf8Concat(Replace(v, t[..p]), CascadeTag(v, t[p..]));
  }

  lemma {:induction false} CascadeTagKeepsUtf8(v: VaultState, t: Bytes)
    requires TextVault(v) && ValidUtf8(t) && OPEN <= t
    ensures ValidUtf8(CascadeTag(v, t))
    decreases |t|, 0
  {
    assert v.Aligned();
    CascadeTagIs(v, t);
    TokenCut(t);
    hide OPEN, CLOSE, NoneBefore, ValidUtf8, Resolve, TextVault, Cascade, CascadeTag, Find;
    if Find(t, CLOSE).Some? {
      var n := Find(t, CLOSE).value + 6;
      ResolveKeepsUtf8(v, t[..n]);
      CascadeKeepsUtf8(v, t[n..]);
      Utf8Concat(Resolve(v, t[..n]), Cascade(v, t[n..]));
    }
  }

  lemma TokenCut(t: Bytes)
    requires ValidUtf8(t)
    ensures Find(t, CLOSE).Some? ==>
      var n := Find(t, CLOSE).value + 6;
      n <= |t| && ValidUtf8(t[..n]) && ValidUtf8(t[n..])
  {
    hide ValidUtf8, Find, NoneBefore;
    if Find(t, CLOSE).Some? { CutAroundAscii(t, Find(t, CLOSE).value, CLOSE); }
  }

  lemma CascadeTagIs(v: VaultState, t: Bytes)
    requires v.Aligned() && OPEN <= t
    ensures Find(t, CLOSE).None? ==> CascadeTag(v, t) == t
    ensures Find(t, CLOSE).Some? ==>
      var n := Find(t, CLOSE).value + 6;
      CascadeTag(v, t) == Resolve(v, t[..n]) + Cascade(v, t[n..])
  {
    hide Find, Resolve, Cascade;
  }

  // ----- Streams

  /** One delta of text: what leaves and what is held are both text, for every vault of texts. */
  lemma DeltaKeepsUtf8(v: VaultState, st: BufferState, d: Bytes)
    requires TextVault(v) && ValidUtf8(st.buffer) && ValidUtf8(d)
    ensures var (out, st') := DeltaStep(v, st, d); ValidUtf8(out) && ValidUtf8(st'.buffer)
  {
    assert v.Aligned();
    NothingIsValid();
    hide ValidUtf8, Cascade, TextVault, SafeFlushLen, CharBoundary;
    Utf8Concat(st.buffer, d);
    CascadeKeepsUtf8(v, st.buffer + d);
    var x := Cascade(v, st.buffer + d);
    var prefixes := Refresh(v, st.(buffer := st.buffer + d)).prefixes;
    BoundaryCuts(x, SafeFlushLen(x, v.maxKeyLen, prefixes));
  }

  /** What the client receives, delta by delta, and at the end of the stream. */
  function Pieces(v: VaultState, st: BufferState, deltas: seq<Bytes>): (ps: seq<Bytes>)
    requires v.Aligned()
    decreases |deltas|
  {
    if deltas == [] then [Remaining(v, st)]
    else
      var (out, st') := DeltaStep(v, st, deltas[0]);
      [out] + Pieces(v, st', deltas[1..])
  }

  lemma {:induction false} PiecesAreTheStream(v: VaultState, st: BufferState, deltas: seq<Bytes>)
    requires v.Aligned()
    ensures Flatten(Pieces(v, st, deltas)) == Stream(v, st, deltas)
    decreases |deltas|
  {
    hide DeltaStep, Remaining;
    if deltas == [] {
      FlattenOne(Remaining(v, st));
    } else {
      var (out, st') := DeltaStep(v, st, deltas[0]);
      PiecesAreTheStream(v, st', deltas[1..]);
      assert Pieces(v, st, deltas)[1..] == Pieces(v, st', deltas[1..]);
    }
  }

  /** If keys, originals and deltas are text, every piece the client receives is. */
  lemma {:induction false} PiecesAreUtf8(v: VaultState, st: BufferState, deltas: seq<Bytes>)
    requires TextVault(v) && ValidUtf8(st.buffer) && forall d :: d in deltas ==> ValidUtf8(d)
    ensures forall p :: p in Pieces(v, st, deltas) ==> ValidUtf8(p)
    decreases |deltas|
  {
    assert v.Aligned();
    if deltas == [] {
      CascadeKeepsUtf8(v, st.buffer);
    } else {
      hide ValidUtf8, DeltaStep, TextVault;
      DeltaKeepsUtf8(v, st, deltas[0]);
      PiecesAreUtf8(v, DeltaStep(v, st, deltas[0]).1, deltas[1..]);
    }
  }

  // ----- An instance

  /** "caf" and an e with an acute accent, a space, "Ali": with keys of five bytes, the window is cut before the e. */
  lemma AccentIsKept()
    ensures CharBoundary([99, 97, 102, 0xC3, 0xA9, 32, 65, 108, 105], 4) == 3
  {
  }
}
