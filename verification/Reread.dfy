/** Held text is rewritten again: what that does when originals and keys are not kept apart. */
module Reread {
  import opened Bytes
  import opened Vault
  import opened Unmask
  import opened Rescan
  import opened Holdback
  import opened Streaming
  import opened PlainText
  import opened Nested

  ghost predicate PlainOriginals(v: VaultState) {
    forall o :: o in v.originalValues ==> LT !in o
  }

  lemma {:induction false} ReplaceStaysPlain(v: VaultState, t: Bytes)
    requires v.Aligned() && PlainOriginals(v) && LT !in t
    ensures LT !in Replace(v, t)
    decreases |t|
  {
    if t == [] {
    } else {
      var r := BestKey(v.syntheticKeys, t);
      if r.Some? { assert v.originalValues[r.value] in v.originalValues; }
      ReplaceStaysPlain(v, t[if r.None? then 1 else |v.syntheticKeys[r.value]|..]);
    }
  }

  /** What the last delta of a plain stream gives: a part that leaves, and the held rest rewritten once more. */
  function Reread(v: VaultState, z: Bytes): Bytes
    requires v.Aligned()
  {
    var y := Replace(v, z);
    var s := FlushPoint(v, y, KeyPrefixes(v.syntheticKeys));
    y[..s] + Replace(v, y[s..])
  }

  lemma LastPlainDelta(v: VaultState, st: BufferState, r: Bytes)
    requires v.Aligned() && PlainOriginals(v) && v.originalToSynthetic != map[] && Cached(v, st)
    requires LT !in st.buffer + r && r != []
    ensures Stream(v, st, [r]) == Reread(v, st.buffer + r)
  {
    hide Replace, Cascade, FlushPoint, KeyPrefixes, Cached, DeltaStep, PlainOriginals, Stream, Remaining;
    var z := st.buffer + r;
    PlainCascade(v, z);
    DeltaStepIs(v, st, r);
    var y := Replace(v, z);
    var s := FlushPoint(v, y, KeyPrefixes(v.syntheticKeys));
    ReplaceStaysPlain(v, z);
    assert forall x :: x in y[s..] ==> x in y;
    PlainCascade(v, y[s..]);
    LastTwo(v, st, r);
    RemainingRewrites(v, DeltaStep(v, st, r).1, y[s..]);
  }

  lemma RemainingRewrites(v: VaultState, st: BufferState, rest: Bytes)
    requires v.Aligned() && st.buffer == rest && Cascade(v, rest) == Replace(v, rest)
    ensures Remaining(v, st) == Replace(v, rest)
  {
  }

  /** A plain text in one delta, for any keys and originals. */
  lemma OneDeltaIs(v: VaultState, t: Bytes)
    requires v.Valid() && PlainOriginals(v) && LT !in t
    ensures Stream(v, FRESH, [t]) == Reread(v, t)
  {
    hide Stream, Reread, VaultState.Zipped, VaultState.Indexed, VaultState.Distinct, VaultState.TrueMax, PlainOriginals;
    if v.originalToSynthetic == map[] {
      EmptyVaultStream(v, [t], FRESH);
      FlattenOne(t);
      NoMappings(v);
      RereadNothing(v, t);
    } else if t == [] {
      NothingStreams(v);
    } else {
      FreshIsCached(v);
      assert FRESH.buffer + t == t;
      LastPlainDelta(v, FRESH, t);
    }
  }

  lemma RereadNothing(v: VaultState, t: Bytes)
    requires v.Aligned() && v.syntheticKeys == []
    ensures Reread(v, t) == t
  {
    hide FlushPoint, KeyPrefixes, Replace;
    ReplaceNothing(v, t);
    var s := FlushPoint(v, t, KeyPrefixes(v.syntheticKeys));
    ReplaceNothing(v, t[s..]);
    assert t == t[..s] + t[s..];
  }

  lemma NothingStreams(v: VaultState)
    requires v.Aligned()
    ensures Stream(v, FRESH, [[]]) == [] && Reread(v, []) == []
  {
    var one: seq<Bytes> := [[]];
    assert one[1..] == [];
  }

  /** Two deltas of plain text, for any keys and originals. */
  lemma TwoDeltasAre(v: VaultState, u: Bytes, r: Bytes)
    requires v.Valid() && PlainOriginals(v) && v.originalToSynthetic != map[] && LT !in u + r && u != [] && r != []
    ensures
      var x := Replace(v, u);
      var s := FlushPoint(v, x, KeyPrefixes(v.syntheticKeys));
      Stream(v, FRESH, [u, r]) == x[..s] + Reread(v, x[s..] + r)
  {
    hide Replace, Cascade, FlushPoint, KeyPrefixes, Cached, DeltaStep, PlainOriginals, Remaining, Reread,
      VaultState.Zipped, VaultState.Indexed, VaultState.Distinct, VaultState.TrueMax;
    assert forall y :: y in u || y in r ==> y in u + r;
    FreshIsCached(v);
    assert FRESH.buffer + u == u;
    PlainCascade(v, u);
    DeltaStepIs(v, FRESH, u);
    var x := Replace(v, u);
    var s := FlushPoint(v, x, KeyPrefixes(v.syntheticKeys));
    ReplaceStaysPlain(v, u);
    assert [u, r][1..] == [r];
    LastPlainDelta(v, DeltaStep(v, FRESH, u).1, r);
  }

  /** One delta agrees with the whole exactly when the part that is held back holds no key any more. */
  lemma OneDeltaAgreesIff(v: VaultState, t: Bytes)
    requires v.Valid() && PlainOriginals(v) && LT !in t
    ensures
      var x := Replace(v, t);
      var held := x[FlushPoint(v, x, KeyPrefixes(v.syntheticKeys))..];
      Stream(v, FRESH, [t]) == Replace(v, t) <==> Replace(v, held) == held
  {
    hide Stream, Replace, FlushPoint, KeyPrefixes, VaultState.Valid, PlainOriginals;
    assert v.Aligned() by { ValidIsAligned(v); }
    OneDeltaIs(v, t);
    var x := Replace(v, t);
    var s := FlushPoint(v, x, KeyPrefixes(v.syntheticKeys));
    assert x == x[..s] + x[s..];
    SameFront(x[..s], Replace(v, x[s..]), x[s..]);
  }

  lemma ValidIsAligned(v: VaultState)
    requires v.Valid()
    ensures v.Aligned()
  {
  }

  lemma SameFront(a: Bytes, b: Bytes, c: Bytes)
    ensures a + b == a + c <==> b == c
  {
    assert (a + b)[|a|..] == b && (a + c)[|a|..] == c;
  }

  /** A key alone comes out as its original exactly when the held tail of that original holds no key. */
  lemma KeyAgreesIff(v: VaultState, i: nat)
    requires v.Valid() && PlainOriginals(v) && i < |v.syntheticKeys| && LT !in v.syntheticKeys[i]
    requires BestKey(v.syntheticKeys, v.syntheticKeys[i]) == Some(i)
    ensures
      var o := v.originalValues[i];
      var held := o[FlushPoint(v, o, KeyPrefixes(v.syntheticKeys))..];
      Stream(v, FRESH, [v.syntheticKeys[i]]) == Replace(v, v.syntheticKeys[i]) <==> Replace(v, held) == held
  {
    ReplaceKey(v, i);
    hide Stream, Replace, FlushPoint, KeyPrefixes, BestKey, PlainOriginals;
    OneDeltaAgreesIff(v, v.syntheticKeys[i]);
  }

  // ----- An instance

  /** Keys "ab" for "ecd" and "cd" for "Z". */
  const REREAD := VaultState(map[[101, 99, 100] := [97, 98], [90] := [99, 100]], [[97, 98], [99, 100]],
                             [[101, 99, 100], [90]], [[], []], [1, 1], [1.0, 1.0], [[], []], 2, map[], map[], map[])

  lemma RereadIsValid()
    ensures REREAD.Valid() && PlainOriginals(REREAD)
  {
    assert REREAD.syntheticKeys[0] in REREAD.syntheticKeys;
  }

  /** Neither keys nor originals lie in one another. */
  lemma RereadIsUnnested()
    ensures Unnested(REREAD) && OriginalsUnnested(REREAD)
  {
    assert forall k :: k in REREAD.syntheticKeys ==> |k| == 2;
    var a, b := [101, 99, 100], [90];
    assert forall o :: o in REREAD.originalValues ==> o == a || o == b;
    TouchingStringsShare(a, b);
    TouchingStringsShare(b, a);
  }

  /** Only the last two bytes of the original are held. */
  lemma RereadHolds()
    ensures FlushPoint(REREAD, [101, 99, 100], KeyPrefixes(REREAD.syntheticKeys)) == 1
  {
    var o, prefixes := [101, 99, 100], KeyPrefixes(REREAD.syntheticKeys);
    assert LT !in o;
    forall j | 0 <= j <= |o| ensures !(OPEN <= o[j..]) {
      NoTagWithoutLt(o, j);
    }
    assert REREAD.syntheticKeys[1] in REREAD.syntheticKeys;
    assert (99, 100) in prefixes && o[1..] == [99, 100];
    assert (o[1..][0], o[1..][1]) in prefixes;
    assert HasTrigger(o[1..], prefixes);
  }

  lemma BestInReread()
    ensures BestKey(REREAD.syntheticKeys, [97, 98]) == Some(0) && BestKey(REREAD.syntheticKeys, [99, 100]) == Some(1)
  {
    var keys := REREAD.syntheticKeys;
    assert BestKey(keys, [97, 98], 0).None? && BestKey(keys, [99, 100], 0).None?;
    assert BestKey(keys, [97, 98], 1) == Some(0);
    assert keys[0][0] != [99, 100][0];
    assert BestKey(keys, [99, 100], 1).None?;
  }

  /** The masked value of one person comes out with the value of another in it, though it arrived in one piece. */
  lemma RereadDisagrees()
    ensures REREAD.Valid() && Unnested(REREAD) && OriginalsUnnested(REREAD)
    ensures Stream(REREAD, FRESH, [[97, 98]]) == [101, 90] && Replace(REREAD, [97, 98]) == [101, 99, 100]
  {
    RereadIsValid();
    RereadIsUnnested();
    RereadHolds();
    BestInReread();
    ReplaceKey(REREAD, 0);
    ReplaceKey(REREAD, 1);
    hide Stream, Replace, FlushPoint, KeyPrefixes, BestKey, PlainOriginals, Unnested, OriginalsUnnested;
    OneDeltaIs(REREAD, [97, 98]);
    var o := [101, 99, 100];
    assert o[1..] == [99, 100] && o[..1] == [101];
  }
}
