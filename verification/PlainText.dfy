/** Streams without tags: the agreement with plain leftmost-longest replacement, whatever bytes the keys hold. */
module PlainText {
  import opened Bytes
  import opened Vault
  import opened Unmask
  import opened Rescan
  import opened Holdback
  import opened Streaming

  /** Keys and originals neither contain nor overlap each other, and no original opens a tag. */
  ghost predicate Separated(v: VaultState) {
    && v.Aligned()
    && (forall k :: k in v.syntheticKeys ==> k != [])
    && (forall o :: o in Restorable(v) ==> o != [] && LT !in o)
    && (forall k, o :: k in v.syntheticKeys && o in Restorable(v) ==> Separate(k, o))
  }

  /** No key is complete before another key that it lies in is; keys that hold a `<` do not matter. */
  ghost predicate PlainUnnested(v: VaultState) {
    forall k, k' :: k in v.syntheticKeys && k' in v.syntheticKeys && LT !in k' ==> !Inside(k, k')
  }

  // ----- Keys that hold a `<` play no part

  /** Those of the first `n` keys that hold no `<`. */
  function LiveKeys(keys: seq<Bytes>, n: nat): (r: seq<Bytes>)
    requires n <= |keys|
    ensures |r| <= n
    ensures forall k :: k in r ==> k in keys && LT !in k
  {
    if n == 0 then [] else LiveKeys(keys, n - 1) + if LT in keys[n - 1] then [] else [keys[n - 1]]
  }

  /** Their originals. */
  function LiveOriginals(keys: seq<Bytes>, originals: seq<Bytes>, n: nat): (r: seq<Bytes>)
    requires n <= |keys| == |originals|
    ensures |r| == |LiveKeys(keys, n)|
    ensures forall o :: o in r ==> o in originals
  {
    if n == 0 then []
    else LiveOriginals(keys, originals, n - 1) + if LT in keys[n - 1] then [] else [originals[n - 1]]
  }

  /** The vault with only the mappings whose keys hold no `<`. */
  function Live(v: VaultState): (w: VaultState)
    requires v.Aligned()
    ensures w.Aligned()
  {
    var keys := LiveKeys(v.syntheticKeys, |v.syntheticKeys|);
    var n := |keys|;
    v.(syntheticKeys := keys,
       originalValues := LiveOriginals(v.syntheticKeys, v.originalValues, |v.syntheticKeys|),
       kinds := v.kinds[..n], tiers := v.tiers[..n], confidences := v.confidences[..n], tokenIds := v.tokenIds[..n])
  }

  lemma {:induction false} BestKeyPrefix(keys: seq<Bytes>, more: seq<Bytes>, t: Bytes, n: nat)
    requires n <= |keys|
    ensures BestKey(keys + more, t, n) == BestKey(keys, t, n)
    decreases n
  {
    if n == 0 {
    } else {
      BestKeyPrefix(keys, more, t, n - 1);
    }
  }

  /** One more key at the end wins only if it matches and is longer than the best so far. */
  lemma BestKeyPush(keys: seq<Bytes>, k: Bytes, t: Bytes)
    ensures
      var r := BestKey(keys, t);
      BestKey(keys + [k], t) ==
      if k != [] && k <= t && (r.None? || |k| > |keys[r.value]|) then Some(|keys|) else r
  {
    BestKeyPrefix(keys, [k], t, |keys|);
  }

  /** The best match with its original. */
  function BestPair(keys: seq<Bytes>, originals: seq<Bytes>, t: Bytes): Option<(Bytes, Bytes)>
    requires |keys| == |originals|
  {
    match BestKey(keys, t) case None => None case Some(i) => Some((keys[i], originals[i]))
  }

  lemma BestPairPush(keys: seq<Bytes>, originals: seq<Bytes>, k: Bytes, o: Bytes, t: Bytes)
    requires |keys| == |originals|
    ensures
      var r := BestPair(keys, originals, t);
      BestPair(keys + [k], originals + [o], t) ==
      if k != [] && k <= t && (r.None? || |k| > |r.value.0|) then Some((k, o)) else r
  {
    BestKeyPush(keys, k, t);
    hide BestKey;
  }

  lemma LiveStep(keys: seq<Bytes>, originals: seq<Bytes>, n: nat)
    requires 0 < n <= |keys| == |originals|
    ensures
      var live, theirs := LiveKeys(keys, n - 1), LiveOriginals(keys, originals, n - 1);
      var dead := LT in keys[n - 1];
      && LiveKeys(keys, n) == (if dead then live else live + [keys[n - 1]])
      && LiveOriginals(keys, originals, n) == (if dead then theirs else theirs + [originals[n - 1]])
  {
  }

  /** In a text without `<`, the best key and its original are found among the live ones. */
  lemma {:induction false} BestLive(keys: seq<Bytes>, originals: seq<Bytes>, t: Bytes, n: nat)
    requires n <= |keys| == |originals| && LT !in t
    ensures BestPair(keys[..n], originals[..n], t) == BestPair(LiveKeys(keys, n), LiveOriginals(keys, originals, n), t)
    decreases n
  {
    hide BestPair;
    if n == 0 {
      assert keys[..0] == [] && originals[..0] == [];
    } else {
      var k, o := keys[n - 1], originals[n - 1];
      BestLive(keys, originals, t, n - 1);
      assert keys[..n] == keys[..n - 1] + [k] && originals[..n] == originals[..n - 1] + [o];
      BestPairPush(keys[..n - 1], originals[..n - 1], k, o, t);
      NotInPlain(k, t);
      LiveStep(keys, originals, n);
      hide LiveKeys, LiveOriginals;
      BestPairPush(LiveKeys(keys, n - 1), LiveOriginals(keys, originals, n - 1), k, o, t);
    }
  }

  lemma NotInPlain(k: Bytes, t: Bytes)
    ensures k <= t && LT in k ==> LT in t
  {
    if k <= t && LT in k {
      var i :| 0 <= i < |k| && k[i] == LT;
      assert t[i] == k[i];
    }
  }

  lemma {:induction false} ReplaceLive(v: VaultState, t: Bytes)
    requires v.Aligned() && LT !in t
    ensures Replace(v, t) == Replace(Live(v), t)
    decreases |t|
  {
    if t == [] {
    } else {
      BestLive(v.syntheticKeys, v.originalValues, t, |v.syntheticKeys|);
      assert v.syntheticKeys[..|v.syntheticKeys|] == v.syntheticKeys;
      assert v.originalValues[..|v.syntheticKeys|] == v.originalValues;
      var r := BestKey(v.syntheticKeys, t);
      hide BestKey, LiveKeys, LiveOriginals;
      ReplaceLive(v, t[if r.None? then 1 else |v.syntheticKeys[r.value]|..]);
    }
  }

  lemma LiveIsApart(v: VaultState)
    requires Separated(v)
    ensures Apart(Live(v))
  {
    hide Separate, LiveKeys, LiveOriginals;
    var w := Live(v);
    assert forall o :: o in Restorable(w) ==> o in Restorable(v);
  }

  lemma LiveIsSound(v: VaultState)
    requires Separated(v) && PlainUnnested(v)
    ensures Sound(Live(v))
  {
    hide Separate, LiveKeys, LiveOriginals, Inside, Restorable, Apart;
    LiveIsApart(v);
  }

  lemma PlainCascade(v: VaultState, t: Bytes)
    requires v.Aligned() && LT !in t
    ensures Cascade(v, t) == Replace(v, t)
  {
    hide Replace;
    if Find(t, OPEN).Some? { NoTagWithoutLt(t, Find(t, OPEN).value); }
  }

  /** On a text without `<` the cascade is the scan with the live keys. */
  lemma PlainCascadeIsScan(v: VaultState, t: Bytes)
    requires Separated(v) && LT !in t
    ensures Cascade(v, t) == Scan(Live(v), t)
  {
    hide Cascade, Scan, Replace, Live, Separated;
    assert v.Aligned() by { SeparatedIsAligned(v); }
    PlainCascade(v, t);
    ReplaceLive(v, t);
    PlainCascade(Live(v), t);
    LiveIsApart(v);
    ApartAvoidsTags(Live(v));
    CascadeIsScan(Live(v), t);
  }

  lemma SeparatedIsAligned(v: VaultState)
    requires Separated(v)
    ensures v.Aligned()
  {
  }

  lemma ApartAvoidsTags(v: VaultState)
    requires Apart(v)
    ensures v.Aligned() && KeysAvoidTags(v)
  {
  }

  lemma {:induction false} ScanStaysPlain(w: VaultState, t: Bytes)
    requires Apart(w) && LT !in t
    ensures LT !in Scan(w, t)
    decreases |t|
  {
    hide Separate;
    if t == [] {
    } else {
      assert t[0] in t;
      var h := HeadOf(w, t);
      if h.Subst? { SubstKinds(w, t); }
      ScanStaysPlain(w, t[if h.Subst? then h.width else 1..]);
    }
  }

  lemma PlainNoCut(t: Bytes)
    requires LT !in t
    ensures forall n :: NoCut(t, n)
  {
    forall i | 0 <= i <= |t| ensures !(OPEN <= t[i..]) {
      NoTagWithoutLt(t, i);
    }
  }

  /** What the whole vault's holdback lets go is flushable for the live keys. */
  lemma PlainFlushable(v: VaultState, x: Bytes, c: Bytes)
    requires v.Aligned() && v.TrueMax() && LT !in x
    ensures Flushable(Live(v), x, FlushPoint(v, x, KeyPrefixes(v.syntheticKeys)), c)
  {
    hide LiveKeys, LiveOriginals, CharBoundary, HasTrigger, KeyPrefixes, SafeFlushLen;
    var s := FlushPoint(v, x, KeyPrefixes(v.syntheticKeys));
    forall i | 0 <= i < s ensures !(OPEN <= x[i..]) {
      NoTagWithoutLt(x, i);
    }
    forall i, k | 0 <= i < s && k in Live(v).syntheticKeys && k <= (x + c)[i..] ensures i + |k| <= |x| {
      TagNotInKey(k);
      HoldbackSafe(x, c, v.syntheticKeys, v.maxKeyLen, k, i);
    }
  }

  /** One delta of plain text. */
  lemma PlainDelta(v: VaultState, b: Bytes, c: Bytes)
    requires v.Aligned() && v.TrueMax() && Separated(v) && PlainUnnested(v) && LT !in b + c
    ensures
      var x := Cascade(v, b);
      var s := FlushPoint(v, x, KeyPrefixes(v.syntheticKeys));
      Scan(Live(v), b + c) == x[..s] + Scan(Live(v), x[s..] + c) && LT !in x[s..] + c
  {
    hide Scan, Cascade, Admissible, NoCut, Inert, FlushPoint, Flushable, VaultState.TrueMax, Live, Separated,
      PlainUnnested, Apart, Unnested;
    assert forall y :: y in b || y in c ==> y in b + c;
    var w := Live(v);
    LiveIsSound(v);
    PlainCascadeIsScan(v, b);
    ScanStaysPlain(w, b);
    PlainIsAdmissible(w, b + c);
    PlainNoCut(b + c);
    RescanStable(w, b, c);
    var x := Scan(w, b);
    PlainFlushable(v, x, c);
    Flush(w, x, FlushPoint(v, x, KeyPrefixes(v.syntheticKeys)), c);
  }

  lemma {:induction false} PlainStreamFrom(v: VaultState, st: BufferState, deltas: seq<Bytes>)
    requires v.Aligned() && v.TrueMax() && Separated(v) && PlainUnnested(v)
    requires v.originalToSynthetic != map[] && Cached(v, st)
    requires LT !in st.buffer + Flatten(deltas)
    ensures Stream(v, st, deltas) == Scan(Live(v), st.buffer + Flatten(deltas))
    decreases |deltas|
  {
    hide Scan, Cascade, FlushPoint, VaultState.TrueMax, KeyPrefixes, Cached, Separated, PlainUnnested, Live;
    var b := st.buffer;
    if deltas == [] {
      assert b + [] == b;
      PlainCascadeIsScan(v, b);
      ScanEmpty(Live(v));
    } else {
      var d, c := deltas[0], Flatten(deltas[1..]);
      Assoc(b, d, c);
      if d == [] {
        assert b + d == b;
        PlainStreamFrom(v, st, deltas[1..]);
      } else {
        var st' := DeltaStep(v, st, d).1;
        DeltaStepIs(v, st, d);
        PlainDelta(v, b + d, c);
        hide DeltaStep;
        PlainStreamFrom(v, st', deltas[1..]);
      }
    }
  }

  /** For text without `<`, however it is cut, the stream is plain longest-key replacement of the whole. */
  lemma PlainStreamingEqualsReplace(v: VaultState, deltas: seq<Bytes>)
    requires v.Valid() && Separated(v) && PlainUnnested(v) && LT !in Flatten(deltas)
    ensures Stream(v, FRESH, deltas) == Replace(v, Flatten(deltas))
  {
    hide Scan, Cascade, Replace, Stream, Flatten, Live, Separated, PlainUnnested, VaultState.Indexed, VaultState.Zipped;
    var t := Flatten(deltas);
    PlainCascade(v, t);
    if v.originalToSynthetic == map[] {
      EmptyVaultStream(v, deltas, FRESH);
      NoMappings(v);
      ReplaceNothing(v, t);
    } else {
      assert FRESH.buffer + t == t;
      PlainStreamFrom(v, FRESH, deltas);
      PlainCascadeIsScan(v, t);
    }
  }

  lemma {:induction false} ReplaceNothing(v: VaultState, t: Bytes)
    requires v.Aligned() && v.syntheticKeys == []
    ensures Replace(v, t) == t
    decreases |t|
  {
    if t == [] {
    } else {
      ReplaceNothing(v, t[1..]);
    }
  }
}
