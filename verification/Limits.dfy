/** Where the streaming agreement stops: the conditions it needs cannot simply be dropped. */
module Limits {
  import opened Bytes
  import opened Vault
  import opened Unmask
  import opened Rescan
  import opened Holdback
  import opened Streaming
  import opened PlainText
  import opened Nested

  /** A token the vault can restore: complete, not nested, known. */
  ghost predicate KnownToken(v: VaultState, token: Bytes) {
    && OPEN <= token && |token| >= 6
    && Find(token, CLOSE) == Some(|token| - 6)
    && Find(token[1..], OPEN).None?
    && Lookup(v, token).Some?
  }

  lemma KnownTokenScan(v: VaultState, token: Bytes)
    requires Sound(v) && KnownToken(v, token)
    ensures Scan(v, token) == Lookup(v, token).value && Admissible(v, token)
    ensures Lookup(v, token).value in Restorable(v)
  {
    hide ExtractAttr, ExtractInner, BestKey;
    assert token[..|token|] == token;
    assert token[|token|..] == [];
    ScanEmpty(v);
    assert HeadOf(v, token) == Subst(Lookup(v, token).value, |token|);
  }

  lemma OnlyTagInFront(token: Bytes, n: nat)
    requires OPEN <= token && Find(token[1..], OPEN).None? && n <= |token|
    ensures n == 0 || n >= 4 ==> NoCut(token, n)
    ensures NoCut(token, |token|)
  {
    forall i | 0 < i <= |token| ensures !(OPEN <= token[i..]) {
      assert token[i..] == token[1..][i - 1..];
    }
  }

  /** A proper part of `<pii` has nothing to rewrite. */
  lemma {:induction false} TagPartScan(v: VaultState, i: nat, n: nat)
    requires Apart(v) && i <= n < 4
    requires TagPartIsKeyless(v, n)
    ensures Scan(v, OPEN[i..n]) == OPEN[i..n]
    decreases n - i
  {
    if i == n {
    } else {
      var t := OPEN[i..n];
      assert t == OPEN[..n][i..];
      CopyByte(v, t);
      assert t[1..] == OPEN[i + 1..n];
      TagPartScan(v, i + 1, n);
    }
  }

  lemma TwoDeltas(v: VaultState, a: Bytes, b: Bytes)
    requires v.Aligned()
    ensures Flatten([a, b]) == a + b
    ensures Stream(v, FRESH, [a, b]) == DeltaStep(v, FRESH, a).0 + Stream(v, DeltaStep(v, FRESH, a).1, [b])
  {
    hide DeltaStep, Remaining;
    FlattenTwo(a, b);
    assert [a, b][1..] == [b];
  }

  lemma CleanCutOnce(t: Bytes, a: Bytes, b: Bytes)
    requires t == a + b && NoCut(t, |a|) && NoCut(t, |t|)
    ensures Flatten([a, b]) == t && CleanCuts(t, 0, [a, b])
  {
    hide NoCut;
    FlattenOne(a);
    FlattenTwo(a, b);
    forall i | 0 < i <= 2 ensures NoCut(t, 0 + |Flatten([a, b][..i])|) {
      assert [a, b][..1] == [a] && [a, b][..2] == [a, b];
    }
  }

  /** A token in two deltas cut behind its `<pii` is restored. */
  lemma CutBehindTag(v: VaultState, token: Bytes, n: nat)
    requires v.Valid() && Sound(v) && KnownToken(v, token) && 4 <= n < |token|
    ensures Stream(v, FRESH, [token[..n], token[n..]]) == Lookup(v, token).value
  {
    hide Scan, Admissible, NoCut, Stream, Lookup, Find, VaultState.Indexed, VaultState.Zipped, VaultState.TrueMax;
    var a, b := token[..n], token[n..];
    assert a + b == token;
    TwoDeltas(v, a, b);
    OnlyTagInFront(token, n);
    CleanCutOnce(token, a, b);
    KnownTokenScan(v, token);
    StreamingEqualsOneShot(v, [a, b]);
    CascadeIsScan(v, token);
  }

  // ----- A cut inside `<pii`, anywhere in a stream

  /** Before a `<`, plain text is rewritten by itself. */
  lemma ScanBeforeLt(v: VaultState, a: Bytes, y: Bytes)
    requires Apart(v) && LT !in a && (y == [] || y[0] == LT)
    ensures Scan(v, a + y) == Replace(v, a) + Scan(v, y)
    ensures Scan(v, a) == Replace(v, a) && LT !in Replace(v, a)
  {
    forall j | 0 <= j < |a| ensures !(OPEN <= (a + y)[j..]) {
      assert (a + y)[j..][0] == a[j];
    }
    forall j | 0 <= j < |a| ensures !(OPEN <= (a + [])[j..]) {
      assert (a + [])[j..][0] == a[j];
    }
    hide Scan, Replace, Restorable, Separate;
    PlainStretch(v, a, y);
    PlainStretch(v, a, []);
    ScanEmpty(v);
    assert a + [] == a && Replace(v, a) + [] == Replace(v, a);
    ScanStaysPlain(v, a);
  }

  /** No key lies in the first `n` bytes of `<pii`. */
  ghost predicate TagPartIsKeyless(v: VaultState, n: nat)
    requires n <= 4
  {
    forall k :: k in v.syntheticKeys ==> !Factor(k, OPEN[..n])
  }

  /** What a delta that ends inside `<pii` is rewritten to. */
  function UpToTagPart(v: VaultState, a: Bytes, n: nat): Bytes
    requires v.Aligned() && n <= 4
  {
    Replace(v, a) + Scan(v, OPEN[..n])
  }

  /** How much of it leaves. */
  function Leaves(v: VaultState, a: Bytes, n: nat): (s: nat)
    requires v.Aligned() && n <= 4
    ensures s <= |UpToTagPart(v, a, n)|
  {
    FlushPoint(v, UpToTagPart(v, a, n), KeyPrefixes(v.syntheticKeys))
  }

  /** The `<` of a cut tag is copied. */
  lemma TagPartOpens(v: VaultState, n: nat)
    requires Apart(v) && 0 < n < 4
    ensures Scan(v, OPEN[..n]) == [LT] + Scan(v, OPEN[1..n]) && LT !in OPEN[1..n]
  {
    hide Scan, HeadOf, Restorable, Separate, Admissible, Inert;
    var t := OPEN[..n];
    assert t[0] == LT && t[1..] == OPEN[1..n];
    forall k | k in v.syntheticKeys ensures !(k <= t) {
      assert k[0] in k;
    }
    CopyByte(v, t);
  }

  /** The delta that ends inside `<pii`. */
  lemma CutDelta(v: VaultState, st: BufferState, pre: Bytes, n: nat)
    requires Apart(v) && v.originalToSynthetic != map[] && Cached(v, st) && LT !in st.buffer + pre && 0 < n < 4
    ensures
      var a := st.buffer + pre;
      var x, s := UpToTagPart(v, a, n), Leaves(v, a, n);
      var (out, st') := DeltaStep(v, st, pre + OPEN[..n]);
      out == x[..s] && st'.buffer == x[s..] && Cached(v, st')
  {
    assert v.Aligned() && KeysAvoidTags(v);
    hide Scan, Cascade, FlushPoint, DeltaStep, Replace, Apart, Cached, KeyPrefixes;
    var a, b := st.buffer + pre, OPEN[..n];
    Assoc(st.buffer, pre, b);
    ScanBeforeLt(v, a, b);
    CascadeIsScan(v, a + b);
    DeltaStepIs(v, st, pre + b);
  }

  /** Keys hold no `<`, so a key that starts before one is complete before it. */
  lemma KeyEndsBeforeLt(k: Bytes, r: Bytes, c: Bytes, i: nat)
    requires i <= |r| && c != [] && c[0] == LT && k <= (r + c)[i..]
    ensures i + |k| <= |r| || LT in k
  {
    if i + |k| > |r| { assert k[|r| - i] == (r + c)[i..][|r| - i] == c[0]; }
  }

  /** What the holdback lets go before the `<` is flushable. */
  lemma HeldIsFlushable(v: VaultState, a: Bytes, n: nat, rest: Bytes)
    requires Apart(v) && v.TrueMax() && LT !in a && 0 < n < 4 && TagPartIsKeyless(v, n)
    requires Leaves(v, a, n) <= |Replace(v, a)|
    ensures Flushable(v, Replace(v, a), Leaves(v, a, n), OPEN[..n] + rest)
  {
    hide Replace, CharBoundary, HasTrigger, KeyPrefixes, SafeFlushLen, Restorable, Separate, Scan, TagPartIsKeyless;
    var r, c, s := Replace(v, a), OPEN[..n] + rest, Leaves(v, a, n);
    assert OPEN[0..n] == OPEN[..n];
    TagPartScan(v, 0, n);
    ScanBeforeLt(v, a, []);
    forall i | 0 <= i < s ensures !(OPEN <= r[i..]) {
      NoTagWithoutLt(r, i);
    }
    Assoc(r, OPEN[..n], rest);
    forall i, k | 0 <= i < s && k in v.syntheticKeys && k <= (r + c)[i..] ensures i + |k| <= |r| {
      TagNotInKey(k);
      HoldbackSafe(r + OPEN[..n], rest, v.syntheticKeys, v.maxKeyLen, k, i);
      KeyEndsBeforeLt(k, r, c, i);
    }
  }

  lemma CutsCarryOver(b: Bytes, y: Bytes, c: Bytes, n: nat, ds: seq<Bytes>)
    requires NoCut(y + c, |y|) && CleanCuts(b + c, |b| + n, ds)
    ensures CleanCuts(y + c, |y| + n, ds)
  {
    hide NoCut;
    forall i | 0 < i <= |ds| ensures NoCut(y + c, |y| + n + |Flatten(ds[..i])|) {
      CutCarriesOver(b, y, c, n + |Flatten(ds[..i])|);
    }
  }

  /** The text of a stream whose cut falls behind `a` and `n` bytes of `<pii`. */
  function CutText(a: Bytes, n: nat, ds: seq<Bytes>): Bytes
    requires n <= 4
  {
    a + (OPEN[..n] + Flatten(ds))
  }

  /** If everything from the `<` on is held back, the stream is what the whole would have given. */
  lemma CutButHeld(v: VaultState, st: BufferState, pre: Bytes, n: nat, ds: seq<Bytes>)
    requires v.Valid() && Sound(v) && v.originalToSynthetic != map[] && Cached(v, st)
    requires LT !in st.buffer + pre && 0 < n < 4 && TagPartIsKeyless(v, n)
    requires
      var a := st.buffer + pre;
      && Admissible(v, CutText(a, n, ds)) && CleanCuts(CutText(a, n, ds), |a| + n, ds)
      && Leaves(v, a, n) <= |Replace(v, a)|
    ensures Stream(v, st, [pre + OPEN[..n]] + ds) == Scan(v, CutText(st.buffer + pre, n, ds))
  {
    hide Scan, Admissible, NoCut, Stream, Replace, Restorable, Separate, DeltaStep, Cached, Leaves, Flushable,
      CleanCuts, Inert, TagPartIsKeyless, VaultState.Indexed, VaultState.Zipped, VaultState.Distinct,
      VaultState.TrueMax, Unnested;
    var a, b := st.buffer + pre, OPEN[..n];
    var r, c, s := Replace(v, a), b + Flatten(ds), Leaves(v, a, n);
    assert OPEN[0..n] == b;
    TagPartScan(v, 0, n);
    CutDelta(v, st, pre, n);
    ScanBeforeLt(v, a, []);
    NoCutInPlain(a, c);
    RescanStable(v, a, c);
    HeldIsFlushable(v, a, n, Flatten(ds));
    Flush(v, r, s, c);
    CutsCarryOver(a, r[s..], c, n, ds);
    var st' := DeltaStep(v, st, pre + b).1;
    SplitAround(r, b, s);
    Assoc(r[s..], b, Flatten(ds));
    StreamFrom(v, st', ds);
    StreamCons(v, st, pre + b, ds);
  }

  lemma SplitAround(r: Bytes, b: Bytes, s: nat)
    requires s <= |r|
    ensures (r + b)[..s] == r[..s] && (r + b)[s..] == r[s..] + b && |r[s..] + b| == |r| - s + |b|
  {
  }

  lemma NoCutInPlain(a: Bytes, c: Bytes)
    requires LT !in a
    ensures NoCut(a + c, |a|)
  {
    forall i | 0 <= i < |a| ensures !(OPEN <= (a + c)[i..]) {
      assert (a + c)[i..][0] == a[i];
    }
  }

  lemma StreamCons(v: VaultState, st: BufferState, d: Bytes, ds: seq<Bytes>)
    requires v.Aligned()
    ensures Stream(v, st, [d] + ds) == DeltaStep(v, st, d).0 + Stream(v, DeltaStep(v, st, d).1, ds)
  {
    hide DeltaStep, Remaining;
    assert ([d] + ds)[1..] == ds;
  }

  /** If the `<` leaves, it stands in the output where the original should. */
  lemma CutAndLost(v: VaultState, st: BufferState, pre: Bytes, token: Bytes, n: nat, ds: seq<Bytes>)
    requires v.Valid() && Sound(v) && v.originalToSynthetic != map[] && Cached(v, st)
    requires LT !in st.buffer + pre && 0 < n < 4 && KnownToken(v, token) && token <= OPEN[..n] + Flatten(ds)
    requires Leaves(v, st.buffer + pre, n) > |Replace(v, st.buffer + pre)|
    ensures Stream(v, st, [pre + OPEN[..n]] + ds) != Scan(v, CutText(st.buffer + pre, n, ds))
  {
    hide Scan, Stream, Replace, Restorable, Separate, DeltaStep, Cached, Leaves, KnownToken,
      VaultState.Indexed, VaultState.Zipped, VaultState.Distinct, VaultState.TrueMax, Unnested;
    var a, b := st.buffer + pre, OPEN[..n];
    var r, c, s := Replace(v, a), b + Flatten(ds), Leaves(v, a, n);
    CutDelta(v, st, pre, n);
    StreamCons(v, st, pre + b, ds);
    TokenOpens(v, token, c);
    ScanBeforeLt(v, a, c);
    TagPartOpens(v, n);
    assert UpToTagPart(v, a, n)[..s][|r|] == LT;
    assert (r + Scan(v, c))[|r|] != LT;
  }

  // ----- A key inside the part of the tag

  /** A `<`, literal bytes and an original that together cannot open a tag. */
  ghost predicate Stuck(v: VaultState, a: Bytes, o: Bytes) {
    && o in Restorable(v) && LT !in a && KeylessUpTo(v, a, |a|)
    && forall y :: !(OPEN <= [LT] + (a + (o + y)))
  }

  /** The buffer: plain text without keys, then a stuck `<`. */
  function StuckText(p: Bytes, a: Bytes, o: Bytes, z: Bytes): Bytes {
    p + ([LT] + (a + (o + z)))
  }

  /** Rewriting leaves everything up to the stuck original alone. */
  lemma StuckScan(v: VaultState, p: Bytes, a: Bytes, o: Bytes, z: Bytes)
    requires Apart(v) && Stuck(v, a, o) && LT !in p && Inert(v, p)
    ensures Scan(v, StuckText(p, a, o, z)) == StuckText(p, a, o, Scan(v, z))
  {
    hide Scan, HeadOf, Restorable, Separate, Admissible, Inert, KeylessUpTo, Replace;
    var w := a + (o + z);
    assert a[0..|a|] == a;
    LiteralRun(v, a, 0, |a|, o, z);
    var t := [LT] + w;
    assert t[0] == LT && t[1..] == w;
    forall k | k in v.syntheticKeys ensures !(k <= t) {
      assert k[0] in k;
    }
    CopyByte(v, t);
    ScanBeforeLt(v, p, t);
    InertScan(v, p);
  }

  lemma StuckMore(p: Bytes, a: Bytes, o: Bytes, z: Bytes, d: Bytes)
    ensures StuckText(p, a, o, z) + d == StuckText(p, a, o, z + d)
  {
    Assoc(p, [LT] + (a + (o + z)), d);
    Assoc([LT], a + (o + z), d);
    Assoc(a, o + z, d);
    Assoc(o, z, d);
  }

  lemma StuckSplit(p: Bytes, a: Bytes, o: Bytes, z: Bytes, s: nat)
    requires s <= |StuckText(p, a, o, z)|
    ensures s > |p| ==> StuckText(p, a, o, z)[..s][|p|] == LT
    ensures s <= |p| ==>
      StuckText(p, a, o, z)[..s] == p[..s] && StuckText(p, a, o, z)[s..] == StuckText(p[s..], a, o, z)
  {
    var w := [LT] + (a + (o + z));
    if s > |p| {
      assert (p + w)[..s][|p|] == w[0];
    } else {
      SplitAround(p, w, s);
    }
  }

  /** Whatever arrives, a stuck `<` comes out as it is. */
  lemma {:induction false} StuckStays(v: VaultState, st: BufferState, p: Bytes, a: Bytes, o: Bytes, z: Bytes,
                                      ds: seq<Bytes>)
    requires Apart(v) && v.originalToSynthetic != map[] && Cached(v, st)
    requires Stuck(v, a, o) && LT !in p && Inert(v, p) && st.buffer == StuckText(p, a, o, z)
    ensures |Stream(v, st, ds)| > |p| && Stream(v, st, ds)[|p|] == LT
    decreases |ds|
  {
    assert v.Aligned() && KeysAvoidTags(v);
    hide Scan, Cascade, Inert, Stuck, Apart, Cached, FlushPoint, KeyPrefixes, StuckText, KeysAvoidTags;
    if ds == [] {
      CascadeIsScan(v, st.buffer);
      StuckScan(v, p, a, o, z);
      StuckSplit(p, a, o, Scan(v, z), |StuckText(p, a, o, Scan(v, z))|);
      StuckLong(p, a, o, z);
      StuckLong(p, a, o, Scan(v, z));
    } else if ds[0] == [] {
      StuckStays(v, st, p, a, o, z, ds[1..]);
      EmptyFront(Stream(v, st, ds[1..]));
    } else {
      StuckStep(v, st, p, a, o, z, ds[0]);
      var (out, st') := DeltaStep(v, st, ds[0]);
      hide DeltaStep;
      if |out| <= |p| {
        var z' := Scan(v, z + ds[0]);
        InertSuffix(v, p, |out|);
        StuckStays(v, st', p[|out|..], a, o, z', ds[1..]);
      }
    }
  }

  lemma StuckLong(p: Bytes, a: Bytes, o: Bytes, z: Bytes)
    ensures |StuckText(p, a, o, z)| > |p| && StuckText(p, a, o, z)[|p|] == LT
  {
  }

  lemma StuckStep(v: VaultState, st: BufferState, p: Bytes, a: Bytes, o: Bytes, z: Bytes, d: Bytes)
    requires Apart(v) && v.originalToSynthetic != map[] && Cached(v, st) && d != []
    requires Stuck(v, a, o) && LT !in p && Inert(v, p) && st.buffer == StuckText(p, a, o, z)
    ensures
      var (out, st') := DeltaStep(v, st, d);
      && Cached(v, st')
      && (|out| > |p| ==> out[|p|] == LT)
      && (|out| <= |p| ==> st'.buffer == StuckText(p[|out|..], a, o, Scan(v, z + d)))
  {
    assert v.Aligned() && KeysAvoidTags(v);
    hide Scan, Cascade, Inert, Stuck, Apart, Cached, FlushPoint, KeyPrefixes, StuckText, DeltaStep;
    StuckMore(p, a, o, z, d);
    CascadeIsScan(v, st.buffer + d);
    StuckScan(v, p, a, o, z + d);
    DeltaStepIs(v, st, d);
    var x := StuckText(p, a, o, Scan(v, z + d));
    StuckSplit(p, a, o, Scan(v, z + d), FlushPoint(v, x, KeyPrefixes(v.syntheticKeys)));
  }

  /** A key in the part of the tag leaves a stuck `<`: its original cannot spell what the key spelled. */
  lemma KeyInTagSticks(v: VaultState, n: nat) returns (a: Bytes, o: Bytes, z: Bytes)
    requires Apart(v) && 0 < n < 4 && !TagPartIsKeyless(v, n)
    ensures Stuck(v, a, o) && Scan(v, OPEN[..n]) == StuckText([], a, o, z)
  {
    TagPartOpens(v, n);
    var u := OPEN[1..n];
    var k, p := KeyInTag(v, n);
    hide Scan, HeadOf, Restorable, Separate, NoKey, Apart;
    var q, i := FirstKey(v, u, p, k);
    var key := v.syntheticKeys[i];
    o := v.originalValues[i];
    a, z := u[..q], Scan(v, u[q + |key|..]);
    ScanToFirstKey(v, u, 0, q, o, |key|);
    assert u[0..] == u && u[0..q] == a;
    EmptyFront([LT] + (a + (o + z)));
    StillKeyless(v, u, q);
    forall y ensures !(OPEN <= [LT] + (a + (o + y))) {
      PartOfTag(n, q, key, o + y);
      OriginalMisspells(v, OPEN, q + 1, key, o, y);
    }
  }

  lemma KeyInTag(v: VaultState, n: nat) returns (k: Bytes, p: nat)
    requires Apart(v) && 0 < n < 4 && !TagPartIsKeyless(v, n)
    ensures k in v.syntheticKeys && p <= n - 1 && k <= OPEN[1..n][p..]
  {
    k :| k in v.syntheticKeys && Factor(k, OPEN[..n]);
    var i :| 0 <= i <= n && k <= OPEN[..n][i..];
    assert i < n && k[0] in k && OPEN[..n][i..][0] == k[0];
    p := i - 1;
    assert OPEN[..n][i..] == OPEN[1..n][p..];
  }

  lemma StillKeyless(v: VaultState, u: Bytes, q: nat)
    requires KeylessUpTo(v, u, q)
    ensures KeylessUpTo(v, u[..q], q)
  {
    forall t | 0 <= t < q ensures NoKey(v, u[..q][t..]) {
      assert u[t..] == u[..q][t..] + u[q..];
      forall k | k in v.syntheticKeys ensures !(k <= u[..q][t..]) {
        PrefixOfConcat(k, u[..q][t..], u[q..]);
      }
    }
  }

  /** An original in the place of a key does not complete what the key was part of. */
  lemma OriginalMisspells(v: VaultState, tag: Bytes, q: nat, k: Bytes, o: Bytes, y: Bytes)
    requires Apart(v) && o in Restorable(v) && k in v.syntheticKeys && q <= |tag| && k <= tag[q..]
    ensures !(tag <= tag[..q] + (o + y))
  {
    hide Restorable, Separate;
    assert o[0..] == o && o != [];
    NoKeyInOriginal(v, o, 0, y);
    TailOfPrefix(tag, tag[..q], o + y);
    PrefixTransitive(k, tag[q..], o + y);
  }

  lemma PrefixTransitive(a: Bytes, b: Bytes, c: Bytes)
    ensures a <= b && b <= c ==> a <= c
  {
  }

  /** Where the bytes of a tag part stand in the tag. */
  lemma PartOfTag(n: nat, q: nat, k: Bytes, w: Bytes)
    requires 0 < n < 4 && q < n - 1
    ensures k <= OPEN[1..n][q..] ==> k <= OPEN[q + 1..]
    ensures [LT] + (OPEN[1..n][..q] + w) == OPEN[..q + 1] + w
  {
    assert OPEN[q + 1..] == OPEN[1..n][q..] + OPEN[n..];
    PrefixOfConcat(k, OPEN[1..n][q..], OPEN[n..]);
    assert [LT] + OPEN[1..n][..q] == OPEN[..q + 1];
    Assoc([LT], OPEN[1..n][..q], w);
  }

  /** A key in the part of the tag loses the token, held back or not. */
  lemma CutInKey(v: VaultState, st: BufferState, pre: Bytes, token: Bytes, n: nat, ds: seq<Bytes>)
    requires v.Valid() && Sound(v) && v.originalToSynthetic != map[] && Cached(v, st)
    requires LT !in st.buffer + pre && 0 < n < 4 && KnownToken(v, token) && token <= OPEN[..n] + Flatten(ds)
    requires !TagPartIsKeyless(v, n) && Leaves(v, st.buffer + pre, n) <= |Replace(v, st.buffer + pre)|
    ensures Stream(v, st, [pre + OPEN[..n]] + ds) != Scan(v, CutText(st.buffer + pre, n, ds))
  {
    hide Scan, Stream, Replace, Restorable, Separate, DeltaStep, Cached, Leaves, KnownToken, TagPartIsKeyless, Inert,
      Stuck, StuckText, VaultState.Indexed, VaultState.Zipped, VaultState.Distinct, VaultState.TrueMax, Unnested;
    var b, c := OPEN[..n], OPEN[..n] + Flatten(ds);
    var a := st.buffer + pre;
    var r, s := Replace(v, a), Leaves(v, a, n);
    CutDelta(v, st, pre, n);
    StreamCons(v, st, pre + b, ds);
    TokenOpens(v, token, c);
    ScanBeforeLt(v, a, c);
    var e, o, z := KeyInTagSticks(v, n);
    ScanIsInert(v, a);
    InertSuffix(v, r, s);
    StuckJoin(r, e, o, z);
    StuckSplit(r, e, o, z, s);
    StuckStays(v, DeltaStep(v, st, pre + b).1, r[s..], e, o, z, ds);
    assert (r + Scan(v, c))[|r|] != LT;
  }

  lemma StuckJoin(r: Bytes, a: Bytes, o: Bytes, z: Bytes)
    ensures r + StuckText([], a, o, z) == StuckText(r, a, o, z)
  {
    EmptyFront([LT] + (a + (o + z)));
  }

  /** A known token in front is restored, and no original starts with a `<`. */
  lemma TokenOpens(v: VaultState, token: Bytes, c: Bytes)
    requires Apart(v) && KnownToken(v, token) && token <= c
    ensures c[0] == LT && Scan(v, c) != [] && Scan(v, c)[0] != LT
  {
    hide ExtractAttr, ExtractInner, BestKey, Find, Separate;
    assert c == token + c[|token|..];
    FindStable(token, c[|token|..], CLOSE);
    assert c[..|token|] == token;
    var o := Lookup(v, token).value;
    assert HeadOf(v, c) == Subst(o, |token|);
    assert o in Restorable(v) && o[0] in o;
  }

  /**
   * A stream cut inside the `<pii` of a known token, with any plain text before it since the last token and any
   * deltas after it, comes out as the whole would exactly when nothing from the `<` on leaves with that delta and no
   * key lies in the part of the tag that it ends with.
   */
  lemma CutTokenRestoredIff(v: VaultState, st: BufferState, pre: Bytes, token: Bytes, n: nat, ds: seq<Bytes>)
    requires v.Valid() && Sound(v) && Cached(v, st) && KnownToken(v, token) && 0 < n < 4
    requires LT !in st.buffer + pre && token <= OPEN[..n] + Flatten(ds)
    requires var a := st.buffer + pre; Admissible(v, CutText(a, n, ds)) && CleanCuts(CutText(a, n, ds), |a| + n, ds)
    ensures
      var a := st.buffer + pre;
      Stream(v, st, [pre + OPEN[..n]] + ds) == Cascade(v, CutText(a, n, ds)) <==>
        Leaves(v, a, n) <= |Replace(v, a)| && TagPartIsKeyless(v, n)
  {
    NoIndexesUnlessMapped(v, token);
    assert KeysAvoidTags(v);
    hide Stream, Scan, Cascade, KnownToken, Apart, Unnested, Leaves, Replace, TagPartIsKeyless, Admissible, CleanCuts,
      Cached, VaultState.Indexed, VaultState.Zipped, VaultState.Distinct, VaultState.TrueMax;
    var a := st.buffer + pre;
    CascadeIsScan(v, CutText(a, n, ds));
    if Leaves(v, a, n) > |Replace(v, a)| {
      CutAndLost(v, st, pre, token, n, ds);
    } else if TagPartIsKeyless(v, n) {
      CutButHeld(v, st, pre, n, ds);
    } else {
      CutInKey(v, st, pre, token, n, ds);
    }
  }

  /**
   * A tag part in which no key lies is held exactly when it fits in the window of the longest key and the window
   * shows the front of a key.
   */
  lemma TagPartHeldIff(v: VaultState, a: Bytes, n: nat)
    requires Apart(v) && 0 < n < 4 && LT !in a && TagPartIsKeyless(v, n)
    ensures
      var x := UpToTagPart(v, a, n);
      var start := if |x| > v.maxKeyLen then CharBoundary(x, |x| - v.maxKeyLen) else 0;
      Leaves(v, a, n) <= |Replace(v, a)| <==>
        n <= v.maxKeyLen && HasTrigger(x[start..], KeyPrefixes(v.syntheticKeys))
  {
    hide HasTrigger, KeyPrefixes, Replace, Scan, TagPartIsKeyless, Restorable, Separate;
    assert OPEN[0..n] == OPEN[..n];
    TagPartScan(v, 0, n);
    ScanBeforeLt(v, a, []);
    var r, x := Replace(v, a), UpToTagPart(v, a, n);
    NoTagYet(r, n);
    forall q | |r| <= q <= |x| ensures IsCharBoundary(x, q) {
      if q < |x| { assert x[q] == OPEN[q - |r|]; }
    }
  }

  lemma NoTagYet(r: Bytes, n: nat)
    requires LT !in r && n < 4
    ensures OpenTagPos(r + OPEN[..n]).None?
  {
    var x := r + OPEN[..n];
    forall j | 0 <= j <= |x| ensures !(OPEN <= x[j..]) {
      if j < |r| { assert x[j..][0] == r[j]; }
    }
  }

  lemma NoIndexesUnlessMapped(v: VaultState, token: Bytes)
    requires v.Valid()
    ensures Lookup(v, token).Some? ==> v.originalToSynthetic != map[]
  {
    hide Lookup;
    if v.originalToSynthetic == map[] { NoIndexes(v, token); }
  }
}
