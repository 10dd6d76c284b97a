/** The streaming replacement buffer as a function of its deltas, and its agreement with one rewrite of the whole. */
module Streaming {
  import opened Bytes
  import opened Vault
  import opened Unmask
  import opened Rescan
  import opened Holdback

  datatype BufferState = BufferState(buffer: Bytes, prefixes: set<Pair>, cachedCount: nat)

  const FRESH := BufferState([], {}, 0)

  /** The trigger prefixes are recomputed only when the number of mappings has changed. */
  function Refresh(v: VaultState, st: BufferState): BufferState {
    if |v.originalToSynthetic| == st.cachedCount then st
    else st.(prefixes := KeyPrefixes(v.syntheticKeys), cachedCount := |v.originalToSynthetic|)
  }

  /** How much of a rewritten buffer leaves. */
  function FlushPoint(v: VaultState, x: Bytes, prefixes: set<Pair>): (s: nat)
    ensures s <= |x| && s <= SafeFlushLen(x, v.maxKeyLen, prefixes)
  {
    CharBoundary(x, SafeFlushLen(x, v.maxKeyLen, prefixes))
  }

  function DeltaStep(v: VaultState, st: BufferState, incoming: Bytes): (Bytes, BufferState)
    requires v.Aligned()
  {
    if incoming == [] then ([], st)
    else
      var st' := Refresh(v, st.(buffer := st.buffer + incoming));
      if v.originalToSynthetic == map[] then (st'.buffer, st'.(buffer := []))
      else
        var x := Cascade(v, st'.buffer);
        var s := FlushPoint(v, x, st'.prefixes);
        (x[..s], st'.(buffer := x[s..]))
  }

  function Remaining(v: VaultState, st: BufferState): Bytes
    requires v.Aligned()
  {
    if st.buffer == [] then [] else Cascade(v, st.buffer)
  }

  /** Everything a client receives for a list of deltas and the end of the stream. */
  function Stream(v: VaultState, st: BufferState, deltas: seq<Bytes>): Bytes
    requires v.Aligned()
    decreases |deltas|
  {
    if deltas == [] then Remaining(v, st)
    else
      var (out, st') := DeltaStep(v, st, deltas[0]);
      out + Stream(v, st', deltas[1..])
  }

  /** The cached prefixes are those of the vault, or nothing has been read yet. */
  ghost predicate Cached(v: VaultState, st: BufferState) {
    || (st.cachedCount == |v.originalToSynthetic| && st.prefixes == KeyPrefixes(v.syntheticKeys))
    || (st.cachedCount == 0 && st.buffer == [])
  }

  // ----- What may be flushed

  /** Up to `s` the text has neither a tag, nor a key, nor the beginning of a key that a continuation completes. */
  ghost predicate Flushable(v: VaultState, x: Bytes, s: nat, c: Bytes)
  {
    && s <= |x|
    && (forall i :: 0 <= i < s ==> !(OPEN <= x[i..]))
    && (forall i, k :: 0 <= i < s && k in v.syntheticKeys && k <= (x + c)[i..] ==> i + |k| <= |x|)
  }

  lemma FlushableDrop(v: VaultState, x: Bytes, s: nat, c: Bytes)
    requires Flushable(v, x, s, c) && s > 0
    ensures Flushable(v, x[1..], s - 1, c)
  {
    assert forall i :: 0 <= i < s - 1 ==> x[1..][i..] == x[i + 1..];
    assert forall i :: 0 <= i < s - 1 ==> (x[1..] + c)[i..] == (x + c)[i + 1..];
  }

  /** The first byte of a flushable text is copied, however the text goes on. */
  lemma FlushOne(v: VaultState, x: Bytes, s: nat, c: Bytes)
    requires Apart(v) && Inert(v, x) && Flushable(v, x, s, c) && s > 0
    requires NoCut(x + c, |x|) && Admissible(v, x + c)
    ensures Scan(v, x + c) == [x[0]] + Scan(v, x[1..] + c)
    ensures Inert(v, x[1..]) && Admissible(v, x[1..] + c) && NoCut(x[1..] + c, |x| - 1)
  {
    hide Scan, Admissible, Restorable, Separate, HeadOf;
    var t := x + c;
    assert x[0..] == x && t[0..] == t && t[1..] == x[1..] + c;
    assert !(OPEN <= t);
    forall k | k in v.syntheticKeys ensures !(k <= t) {
      PrefixInside(k, x, c);
    }
    CopyByte(v, t);
    NoCutDrop(t, 1, |x|);
  }

  lemma PrefixInside(k: Bytes, x: Bytes, c: Bytes)
    ensures k <= x + c && |k| <= |x| ==> k <= x
  {
  }

  /** Flushing a flushable part changes nothing in what is still to come. */
  lemma {:induction false} Flush(v: VaultState, x: Bytes, s: nat, c: Bytes)
    requires v.Aligned() && s <= |x|
    requires Apart(v) && Inert(v, x) && Flushable(v, x, s, c)
    requires NoCut(x + c, |x|) && Admissible(v, x + c)
    ensures Scan(v, x + c) == x[..s] + Scan(v, x[s..] + c)
    ensures Admissible(v, x[s..] + c) && NoCut(x[s..] + c, |x| - s)
    decreases s
  {
    hide Scan, Admissible, NoCut, Inert, Flushable, Apart;
    if s == 0 {
      assert x[s..] == x;
    } else {
      FlushOne(v, x, s, c);
      FlushableDrop(v, x, s, c);
      Flush(v, x[1..], s - 1, c);
      assert x[1..][s - 1..] == x[s..];
      assert x[..s] == [x[0]] + x[1..][..s - 1];
      Assoc([x[0]], x[1..][..s - 1], Scan(v, x[s..] + c));
    }
  }

  /** In an inert text an opening tag is the only one and is not closed. */
  lemma {:induction false} InertTag(v: VaultState, x: Bytes, i: nat)
    requires Inert(v, x) && i <= |x| && OPEN <= x[i..]
    ensures Find(x[i..], CLOSE).None?
    ensures forall j :: 0 <= j <= |x| && OPEN <= x[j..] ==> j == i
    decreases |x|
  {
    assert x[0..] == x;
    if OPEN <= x {
      assert forall j :: 0 < j <= |x| ==> x[j..] == x[1..][j - 1..];
    } else {
      assert forall j :: 0 < j <= |x| ==> x[j..] == x[1..][j - 1..];
      InertTag(v, x[1..], i - 1);
    }
  }

  lemma OpenTagIsInert(v: VaultState, x: Bytes, i: nat)
    requires Inert(v, x) && i <= |x| && OPEN <= x[i..]
    ensures OpenTagPos(x) == Some(i)
  {
    hide Find, Inert;
    InertTag(v, x, i);
  }

  lemma FlushPointIsFlushable(v: VaultState, x: Bytes, c: Bytes)
    requires v.TrueMax() && Apart(v) && Inert(v, x)
    ensures Flushable(v, x, FlushPoint(v, x, KeyPrefixes(v.syntheticKeys)), c)
  {
    hide Inert, OpenTagPos, CharBoundary, HasTrigger, KeyPrefixes, Restorable, Separate;
    var s := FlushPoint(v, x, KeyPrefixes(v.syntheticKeys));
    forall i | 0 <= i < s ensures !(OPEN <= x[i..]) {
      if OPEN <= x[i..] { OpenTagIsInert(v, x, i); }
    }
    forall k | k in v.syntheticKeys ensures !Factor(OPEN, k) {
      TagNotInKey(k);
    }
    forall i, k | 0 <= i < s && k in v.syntheticKeys && k <= (x + c)[i..] ensures i + |k| <= |x| {
      HoldbackSafe(x, c, v.syntheticKeys, v.maxKeyLen, k, i);
    }
  }

  lemma TagNotInKey(k: Bytes)
    ensures LT !in k ==> !Factor(OPEN, k)
  {
    forall i | 0 <= i <= |k| && OPEN <= k[i..] ensures LT in k {
      assert k[i] == k[i..][0] == LT;
    }
  }

  // ----- Streams

  /** No boundary between deltas falls inside an opening `<pii` of the text. */
  ghost predicate CleanCuts(t: Bytes, base: nat, deltas: seq<Bytes>) {
    forall i :: 0 < i <= |deltas| ==> NoCut(t, base + |Flatten(deltas[..i])|)
  }

  /** A later cut is clean in the new buffer too: a tag across it would also lie across the buffer's end. */
  lemma CutCarriesOver(b: Bytes, y: Bytes, c: Bytes, m: nat)
    requires NoCut(y + c, |y|) && NoCut(b + c, |b| + m)
    ensures NoCut(y + c, |y| + m)
  {
    forall i | 0 <= i < |y| + m < i + 4 && i <= |y + c| ensures !(OPEN <= (y + c)[i..]) {
      if i >= |y| {
        assert (y + c)[i..] == c[i - |y|..] == (b + c)[|b| + i - |y|..];
      }
    }
  }

  lemma CleanCutsStep(b: Bytes, y: Bytes, d: Bytes, ds: seq<Bytes>)
    requires var t := b + d + Flatten(ds); CleanCuts(t, |b|, [d] + ds)
    requires NoCut(y + Flatten(ds), |y|)
    ensures CleanCuts(y + Flatten(ds), |y|, ds)
  {
    hide NoCut;
    var c := Flatten(ds);
    forall i | 0 < i <= |ds| ensures NoCut(y + c, |y| + |Flatten(ds[..i])|) {
      var all := [d] + ds;
      assert all[..i + 1][0] == d && all[..i + 1][1..] == ds[..i];
      assert Flatten(all[..i + 1]) == d + Flatten(ds[..i]);
      CutCarriesOver(b + d, y, c, |Flatten(ds[..i])|);
    }
  }

  lemma CleanCutsSkip(t: Bytes, base: nat, ds: seq<Bytes>)
    requires CleanCuts(t, base, [[]] + ds)
    ensures CleanCuts(t, base, ds)
  {
    hide NoCut;
    forall i | 0 < i <= |ds| ensures NoCut(t, base + |Flatten(ds[..i])|) {
      var all := [[]] + ds;
      assert all[..i + 1][0] == [] && all[..i + 1][1..] == ds[..i];
      assert Flatten(all[..i + 1]) == Flatten(ds[..i]);
    }
  }

  /** One delta: what leaves now and what the rest will give is what the whole would have given. */
  lemma OneDelta(v: VaultState, b: Bytes, c: Bytes)
    requires v.TrueMax() && Sound(v) && Admissible(v, b + c) && NoCut(b + c, |b|)
    ensures
      var x := Cascade(v, b);
      var s := FlushPoint(v, x, KeyPrefixes(v.syntheticKeys));
      && Scan(v, b + c) == x[..s] + Scan(v, x[s..] + c)
      && Admissible(v, x[s..] + c) && NoCut(x[s..] + c, |x| - s)
  {
    hide Scan, Cascade, Admissible, NoCut, Inert, FlushPoint, Flushable, VaultState.TrueMax;
    CascadeIsScan(v, b);
    RescanStable(v, b, c);
    var x := Scan(v, b);
    FlushPointIsFlushable(v, x, c);
    Flush(v, x, FlushPoint(v, x, KeyPrefixes(v.syntheticKeys)), c);
  }

  lemma DeltaStepIs(v: VaultState, st: BufferState, d: Bytes)
    requires v.Aligned() && v.originalToSynthetic != map[] && Cached(v, st) && d != []
    ensures
      var x := Cascade(v, st.buffer + d);
      var s := FlushPoint(v, x, KeyPrefixes(v.syntheticKeys));
      && DeltaStep(v, st, d).0 == x[..s]
      && DeltaStep(v, st, d).1.buffer == x[s..]
      && Cached(v, DeltaStep(v, st, d).1)
  {
    hide Cascade, FlushPoint, KeyPrefixes;
  }

  lemma FirstCut(t: Bytes, base: nat, deltas: seq<Bytes>)
    requires CleanCuts(t, base, deltas) && deltas != []
    ensures NoCut(t, base + |deltas[0]|)
  {
    hide NoCut;
    assert deltas[..1] == [deltas[0]];
    assert Flatten([deltas[0]]) == deltas[0];
  }

  lemma {:induction false} StreamFrom(v: VaultState, st: BufferState, deltas: seq<Bytes>)
    requires v.TrueMax() && Sound(v) && v.originalToSynthetic != map[] && Cached(v, st)
    requires var t := st.buffer + Flatten(deltas); Admissible(v, t) && CleanCuts(t, |st.buffer|, deltas)
    ensures Stream(v, st, deltas) == Scan(v, st.buffer + Flatten(deltas))
    decreases |deltas|
  {
    hide Scan, Cascade, Admissible, NoCut, FlushPoint, VaultState.TrueMax, KeyPrefixes, CleanCuts, Cached, Restorable,
      Separate;
    var b := st.buffer;
    if deltas == [] {
      assert b + Flatten(deltas) == b;
      CascadeIsScan(v, b);
      ScanEmpty(v);
    } else {
      var d, ds := deltas[0], deltas[1..];
      var t, c := b + Flatten(deltas), Flatten(ds);
      assert deltas == [d] + ds && t == b + d + c;
      FirstCut(t, |b|, deltas);
      if d == [] {
        assert t == b + c;
        CleanCutsSkip(t, |b|, ds);
        StreamFrom(v, st, ds);
      } else {
        var st' := DeltaStep(v, st, d).1;
        DeltaStepIs(v, st, d);
        OneDelta(v, b + d, c);
        CleanCutsStep(b, st'.buffer, d, ds);
        hide DeltaStep;
        StreamFrom(v, st', ds);
      }
    }
  }

  lemma ScanEmpty(v: VaultState)
    requires v.Aligned()
    ensures Scan(v, []) == []
  {
  }

  // ----- The agreement

  /** With no mappings nothing is rewritten and nothing is held. */
  lemma {:induction false} EmptyVaultScan(v: VaultState, t: Bytes)
    requires v.Valid() && v.originalToSynthetic == map[]
    ensures Scan(v, t) == t
    decreases |t|
  {
    NoMappings(v);
    if t == [] {
    } else {
      var h := HeadOf(v, t);
      if h.Subst? {
        NoIndexes(v, t[..h.width]);
        EmptyVaultScan(v, t[h.width..]);
        assert t == t[..h.width] + t[h.width..];
      } else if h.Literal? {
        EmptyVaultScan(v, t[1..]);
      }
    }
  }

  lemma NoIndexes(v: VaultState, token: Bytes)
    requires v.Indexed() && v.originalToSynthetic == map[]
    ensures Lookup(v, token).None?
  {
    hide Find, ExtractAttr, ExtractInner;
    assert v.fullTokens.Values == {} && v.tokenIdIndex.Values == {} && v.displays.Values == {};
    assert v.fullTokens == map[] && v.tokenIdIndex == map[] && v.displays == map[];
  }

  lemma {:induction false} EmptyVaultStream(v: VaultState, deltas: seq<Bytes>, st: BufferState)
    requires v.Valid() && v.originalToSynthetic == map[] && st.buffer == []
    ensures Stream(v, st, deltas) == Flatten(deltas)
    decreases |deltas|
  {
    hide Cascade, VaultState.Zipped, VaultState.TrueMax, VaultState.Indexed;
    if deltas == [] {
    } else {
      assert [] + deltas[0] == deltas[0];
      EmptyVaultStream(v, deltas[1..], DeltaStep(v, st, deltas[0]).1);
    }
  }

  /**
   * Streaming equals one-shot: for a sound vault and an admissible text, however it is cut into deltas outside
   * an opening `<pii`, the flushed pieces and the final flush together are one cascade over the whole text.
   */
  lemma StreamingEqualsOneShot(v: VaultState, deltas: seq<Bytes>)
    requires v.Valid() && Sound(v)
    requires Admissible(v, Flatten(deltas)) && CleanCuts(Flatten(deltas), 0, deltas)
    ensures Stream(v, FRESH, deltas) == Cascade(v, Flatten(deltas))
  {
    hide Scan, Cascade, Admissible, CleanCuts, Stream, Flatten, VaultState.Indexed, VaultState.Zipped;
    var t := Flatten(deltas);
    CascadeIsScan(v, t);
    if v.originalToSynthetic == map[] {
      EmptyVaultScan(v, t);
      EmptyVaultStream(v, deltas, FRESH);
    } else {
      assert FRESH.buffer + t == t;
      StreamFrom(v, FRESH, deltas);
    }
  }

  lemma {:induction false} PlainIsAdmissible(v: VaultState, t: Bytes)
    requires v.Aligned() && LT !in t
    ensures Admissible(v, t)
    decreases |t|
  {
    if t == [] {
    } else {
      assert t[0] in t;
      var n := if HeadOf(v, t).Subst? then HeadOf(v, t).width else 1;
      PlainIsAdmissible(v, t[n..]);
    }
  }

  lemma NoTagWithoutLt(t: Bytes, i: nat)
    requires i <= |t|
    ensures OPEN <= t[i..] ==> LT in t
  {
    if OPEN <= t[i..] { assert t[i] == t[i..][0] == LT; }
  }
}
