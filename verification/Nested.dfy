/** Keys that lie in other keys: what the stream gives for them, and exactly when it still agrees. */
module Nested {
  import opened Bytes
  import opened Vault
  import opened Unmask
  import opened Rescan
  import opened Holdback
  import opened Streaming
  import opened PlainText

  // ----- Two deltas of plain text, whatever the keys

  /** Rewritten plain text holds no key. */
  lemma {:induction false} ScanIsInert(w: VaultState, b: Bytes)
    requires Apart(w) && LT !in b
    ensures Inert(w, Scan(w, b))
    decreases |b|
  {
    assert w.Aligned();
    hide HeadOf, Scan, NoKey, Apart, Restorable, Inert;
    if b == [] {
      ScanOfNothing(w);
      NothingIsInert(w);
    } else {
      var h := HeadOf(w, b);
      PlainHead(w, b);
      if h.Literal? {
        var y := Scan(w, b[1..]);
        ScanIsInert(w, b[1..]);
        ScanLiteral(w, b);
        assert b == [b[0]] + b[1..] && b[1..] + [] == b[1..] && y + [] == y && ([b[0]] + y)[1..] == y;
        NoNewKey(w, b[0], b[1..], []);
        CopyByte(w, [b[0]] + y);
      } else {
        ScanIsInert(w, b[h.width..]);
        ScanSubst(w, b, h.text, h.width);
        assert h.text[0..] == h.text;
        OriginalKeepsShape(w, h.text, 0, Scan(w, b[h.width..]));
      }
    }
  }

  lemma NothingIsInert(w: VaultState)
    ensures Inert(w, [])
  {
  }

  /** Plain text starts with a literal byte, which opens no key, or with a key. */
  lemma PlainHead(w: VaultState, b: Bytes)
    requires Apart(w) && b != [] && LT !in b
    ensures
      var h := HeadOf(w, b);
      && !(OPEN <= b)
      && (h.Literal? ==> NoKey(w, b))
      && (!h.Literal? ==>
            h.Subst? && exists i :: 0 <= i < |w.syntheticKeys| && h == KeyHead(w, i) && w.syntheticKeys[i] <= b)
      && (h.Subst? ==> h.text in Restorable(w))
  {
    hide Separate;
    assert b[0] in b;
    NoKeyIsNone(w, b);
    var r := BestKey(w.syntheticKeys, b);
    if r.Some? {
      assert w.originalValues[r.value] in w.originalValues;
      assert HeadOf(w, b) == KeyHead(w, r.value);
    }
  }

  function KeyHead(w: VaultState, i: nat): Head
    requires w.Aligned() && i < |w.syntheticKeys|
  {
    Subst(w.originalValues[i], |w.syntheticKeys[i]|)
  }

  /** Text without keys is left alone. */
  lemma {:induction false} InertScan(w: VaultState, x: Bytes)
    requires Apart(w) && LT !in x && Inert(w, x)
    ensures Scan(w, x) == x
    decreases |x|
  {
    if x == [] {
    } else {
      assert x[0] in x;
      InertScan(w, x[1..]);
      CopyByte(w, x);
    }
  }

  lemma {:induction false} InertSuffix(w: VaultState, x: Bytes, n: nat)
    requires LT !in x && Inert(w, x) && n <= |x|
    ensures Inert(w, x[n..])
    decreases n
  {
    if n == 0 {
      assert x[n..] == x;
    } else {
      assert x[0] in x;
      InertSuffix(w, x[1..], n - 1);
      assert x[1..][n - 1..] == x[n..];
    }
  }

  /** The last delta of a plain stream: what leaves and what is held back are the rewritten buffer. */
  lemma LastDelta(v: VaultState, st: BufferState, r: Bytes)
    requires v.Aligned() && v.TrueMax() && Separated(v) && v.originalToSynthetic != map[] && Cached(v, st)
    requires LT !in st.buffer + r && r != []
    ensures Stream(v, st, [r]) == Scan(Live(v), st.buffer + r)
  {
    hide Scan, Cascade, FlushPoint, VaultState.TrueMax, KeyPrefixes, Separated, Live, Inert, Apart, DeltaStep, Cached,
      Stream, Remaining;
    var w, z := Live(v), st.buffer + r;
    LiveIsApart(v);
    PlainCascadeIsScan(v, z);
    var y := Scan(w, z);
    DeltaStepIs(v, st, r);
    var s := FlushPoint(v, y, KeyPrefixes(v.syntheticKeys));
    ScanStaysPlain(w, z);
    ScanIsInert(w, z);
    InertSuffix(w, y, s);
    var rest := y[s..];
    assert LT !in rest;
    InertScan(w, rest);
    PlainCascadeIsScan(v, rest);
    LastTwo(v, st, r);
    RemainingIs(v, DeltaStep(v, st, r).1, rest);
    assert y == y[..s] + rest;
  }

  lemma LastTwo(v: VaultState, st: BufferState, r: Bytes)
    requires v.Aligned()
    ensures Stream(v, st, [r]) == DeltaStep(v, st, r).0 + Remaining(v, DeltaStep(v, st, r).1)
  {
    hide DeltaStep, Remaining;
    assert [r][1..] == [];
  }

  lemma RemainingIs(v: VaultState, st: BufferState, rest: Bytes)
    requires v.Aligned() && st.buffer == rest && Cascade(v, rest) == rest
    ensures Remaining(v, st) == rest
  {
  }

  /** Plain text in two deltas: the first is rewritten by itself, and then everything again. */
  lemma TwoPlainDeltas(v: VaultState, u: Bytes, r: Bytes)
    requires v.Valid() && Separated(v) && v.originalToSynthetic != map[] && LT !in u + r && u != [] && r != []
    ensures Stream(v, FRESH, [u, r]) == Scan(Live(v), Scan(Live(v), u) + r)
  {
    hide Scan, Cascade, FlushPoint, KeyPrefixes, Separated, Live, Inert, Apart, DeltaStep, Admissible, NoCut, Flushable,
      Cached, VaultState.Zipped, VaultState.Indexed, VaultState.Distinct, VaultState.TrueMax, Remaining;
    var w := Live(v);
    assert forall y :: y in u || y in r ==> y in u + r;
    FreshIsCached(v);
    LiveIsApart(v);
    PlainCascadeIsScan(v, u);
    var x := Scan(w, u);
    assert [] + u == u && [u, r][1..] == [r];
    DeltaStepIs(v, FRESH, u);
    var s := FlushPoint(v, x, KeyPrefixes(v.syntheticKeys));
    ScanStaysPlain(w, u);
    ScanIsInert(w, u);
    PlainFlushable(v, x, r);
    PlainIsAdmissible(w, x + r);
    PlainNoCut(x + r);
    Flush(w, x, s, r);
    LastDelta(v, DeltaStep(v, FRESH, u).1, r);
  }

  lemma FreshIsCached(v: VaultState)
    ensures Cached(v, FRESH)
  {
  }

  // ----- The first key in a text

  /** Up to `q` no key starts in `u`. */
  ghost predicate KeylessUpTo(w: VaultState, u: Bytes, q: nat) {
    q <= |u| && forall t :: 0 <= t < q ==> NoKey(w, u[t..])
  }

  /** Literal bytes in front of an original stay literal: no key reaches into the original. */
  lemma {:induction false} LiteralRun(w: VaultState, u: Bytes, t: nat, q: nat, o: Bytes, z: Bytes)
    requires Apart(w) && LT !in u && t <= q && KeylessUpTo(w, u, q) && o in Restorable(w)
    ensures Scan(w, u[t..q] + (o + z)) == u[t..q] + (o + Scan(w, z))
    decreases q - t
  {
    assert w.Aligned();
    hide Scan, HeadOf, Restorable, Separate, Inert, Admissible;
    if t == q {
      assert u[t..q] + (o + z) == o + z && o[0..] == o;
      SkipOriginal(w, o, 0, z);
      assert u[t..q] + (o + Scan(w, z)) == o + Scan(w, z);
    } else {
      var a, T := u[t..q], u[t..q] + (o + z);
      forall k | k in w.syntheticKeys ensures !(k <= T) {
        KeyStopsAtOriginal(w, u, t, q, k, o, z);
      }
      HeadTail(a, o + z);
      assert a[0] == u[t] && u[t] in u && a[1..] == u[t + 1..q];
      CopyByte(w, T);
      LiteralRun(w, u, t + 1, q, o, z);
      HeadTail(a, o + Scan(w, z));
    }
  }

  lemma KeyStopsAtOriginal(w: VaultState, u: Bytes, t: nat, q: nat, k: Bytes, o: Bytes, z: Bytes)
    requires Apart(w) && t < q && KeylessUpTo(w, u, q) && o in Restorable(w) && k in w.syntheticKeys
    ensures !(k <= u[t..q] + (o + z))
  {
    hide Restorable, Separate;
    var a := u[t..q];
    assert u[t..] == a + u[q..];
    PrefixOfConcat(k, a, u[q..]);
    PrefixOfConcat(k, a, o + z);
    if k <= a + (o + z) && a <= k && |a| < |k| {
      NoKeyTailAtOriginal(w, o, k, |a|, z);
      TailOfPrefix(k, a, o + z);
    }
  }

  lemma TailOfPrefix(k: Bytes, a: Bytes, y: Bytes)
    ensures k <= a + y && |a| <= |k| ==> k[|a|..] <= y
  {
    if k <= a + y && |a| <= |k| {
      assert (a + y)[|a|..] == y;
      assert k[|a|..] <= (a + y)[|a|..];
    }
  }

  /** A text that holds a key is literal up to the first one. */
  lemma FirstKey(w: VaultState, u: Bytes, p: nat, k: Bytes) returns (q: nat, i: nat)
    requires Apart(w) && LT !in u && p <= |u| && k in w.syntheticKeys && k <= u[p..]
    ensures q < |u| && KeylessUpTo(w, u, q) && i < |w.syntheticKeys| && q + |w.syntheticKeys[i]| <= |u|
    ensures HeadOf(w, u[q..]) == KeyHead(w, i) && w.originalValues[i] in Restorable(w)
    ensures w.syntheticKeys[i] != [] && w.syntheticKeys[i] <= u[q..]
  {
    hide HeadOf, Restorable, Separate;
    q := 0;
    while q < p && NoKey(w, u[q..])
      invariant q <= p && KeylessUpTo(w, u, q)
    {
      q := q + 1;
    }
    assert !NoKey(w, u[q..]);
    assert u[q..] != [] && LT !in u[q..];
    PlainHead(w, u[q..]);
    i :| 0 <= i < |w.syntheticKeys| && HeadOf(w, u[q..]) == KeyHead(w, i) && w.syntheticKeys[i] <= u[q..];
    assert w.syntheticKeys[i] in w.syntheticKeys;
  }

  /** Scanning copies up to the first key and puts its original in its place. */
  lemma {:induction false} ScanToFirstKey(w: VaultState, u: Bytes, t: nat, q: nat, o: Bytes, n: nat)
    requires Apart(w) && LT !in u && t <= q < |u| && KeylessUpTo(w, u, q) && HeadOf(w, u[q..]) == Subst(o, n)
    requires q + n <= |u|
    ensures Scan(w, u[t..]) == u[t..q] + (o + Scan(w, u[q + n..]))
    decreases q - t
  {
    assert w.Aligned();
    hide Scan, HeadOf, Restorable, Separate, Inert, Admissible, NoKey, Apart;
    if t == q {
      ScanSubst(w, u[q..], o, n);
      assert u[q..][n..] == u[q + n..] && u[t..q] == [];
    } else {
      assert NoKey(w, u[t..]) && u[t..][0] == u[t] && u[t] in u && u[t..][1..] == u[t + 1..];
      CopyByte(w, u[t..]);
      ScanToFirstKey(w, u, t + 1, q, o, n);
      HeadTail(u[t..q], o + Scan(w, u[q + n..]));
      assert u[t..q][1..] == u[t + 1..q];
    }
  }

  /**
   * Early restoring: if the first delta holds a key, the stream is the text up to the first key, its original,
   * and what the rest becomes.
   */
  lemma EarlyRestore(v: VaultState, u: Bytes, r: Bytes, p: nat, k: Bytes) returns (q: nat, i: nat)
    requires v.Valid() && Separated(v) && LT !in u + r && r != []
    requires p <= |u| && k in v.syntheticKeys && k <= u[p..]
    ensures q < |u| && i < |v.syntheticKeys| && 0 < |v.syntheticKeys[i]| <= |u| - q
    ensures Stream(v, FRESH, [u, r]) ==
      u[..q] + (v.originalValues[i] + Replace(v, Replace(v, u[q + |v.syntheticKeys[i]|..]) + r))
  {
    hide Separated, Scan, Replace, HeadOf, Restorable, Stream, VaultState.Zipped, VaultState.Indexed,
      VaultState.Distinct, VaultState.TrueMax, NoKey, Apart;
    var w := Live(v);
    assert forall y :: y in u || y in r ==> y in u + r;
    LiveIsApart(v);
    KeyInPlainIsLive(v, u, p, k);
    MappedByKey(v, k);
    var j: nat;
    q, j := FirstKey(w, u, p, k);
    var o, n := w.originalValues[j], |w.syntheticKeys[j]|;
    i := LiveRow(v.syntheticKeys, v.originalValues, |v.syntheticKeys|, j);
    hide Live, KeylessUpTo;
    TwoPlainDeltas(v, u, r);
    ScanToFirstKey(w, u, 0, q, o, n);
    assert u[0..] == u && u[0..q] == u[..q];
    var x := Scan(w, u[q + n..]);
    Assoc(u[..q], o + x, r);
    Assoc(o, x, r);
    LiteralRun(w, u, 0, q, o, x + r);
    PlainReplaceIsScan(v, u[q + n..]);
    ScanStaysPlain(w, u[q + n..]);
    PlainReplaceIsScan(v, x + r);
  }

  lemma PlainReplaceIsScan(v: VaultState, t: Bytes)
    requires Separated(v) && LT !in t
    ensures v.Aligned() && Replace(v, t) == Scan(Live(v), t)
  {
    hide Separated, Replace, Scan, Cascade;
    SeparatedIsAligned(v);
    PlainCascade(v, t);
    PlainCascadeIsScan(v, t);
  }

  lemma MappedByKey(v: VaultState, k: Bytes)
    requires v.Valid() && k in v.syntheticKeys
    ensures v.originalToSynthetic != map[]
  {
    var j :| 0 <= j < |v.syntheticKeys| && v.syntheticKeys[j] == k;
    assert v.originalValues[j] in v.originalToSynthetic;
  }

  /** Every live mapping is a mapping. */
  lemma {:induction false} LiveRow(keys: seq<Bytes>, originals: seq<Bytes>, n: nat, j: nat) returns (i: nat)
    requires n <= |keys| == |originals| && j < |LiveKeys(keys, n)|
    ensures i < n && keys[i] == LiveKeys(keys, n)[j] && originals[i] == LiveOriginals(keys, originals, n)[j]
    decreases n
  {
    LiveStep(keys, originals, n);
    hide LiveKeys, LiveOriginals;
    if j < |LiveKeys(keys, n - 1)| {
      i := LiveRow(keys, originals, n - 1, j);
    } else {
      i := n - 1;
    }
  }

  /** And every mapping whose key stands in plain text is live. */
  lemma KeyInPlainIsLive(v: VaultState, u: Bytes, p: nat, k: Bytes)
    requires v.Aligned() && LT !in u && p <= |u| && k in v.syntheticKeys && k <= u[p..]
    ensures k in Live(v).syntheticKeys
  {
    var m :| 0 <= m < |v.syntheticKeys| && v.syntheticKeys[m] == k;
    NotInPlain(k, u[p..]);
    assert forall y :: y in u[p..] ==> y in u;
    LiveHolds(v.syntheticKeys, |v.syntheticKeys|, m);
  }

  lemma {:induction false} LiveHolds(keys: seq<Bytes>, n: nat, m: nat)
    requires m < n <= |keys| && LT !in keys[m]
    ensures keys[m] in LiveKeys(keys, n)
    decreases n
  {
    if m == n - 1 {
    } else {
      LiveHolds(keys, n - 1, m);
    }
  }

  // ----- Exactly when it agrees

  /** A key by itself is replaced by the original of the first mapping that has it. */
  lemma ReplaceKey(v: VaultState, j: nat)
    requires v.Aligned() && j < |v.syntheticKeys| && BestKey(v.syntheticKeys, v.syntheticKeys[j]) == Some(j)
    ensures Replace(v, v.syntheticKeys[j]) == v.originalValues[j]
  {
    assert v.syntheticKeys[j][|v.syntheticKeys[j]|..] == [];
  }

  /**
   * A key that goes on to be another key: sent with the cut between the two, the stream agrees with the whole
   * exactly when the longer key's original is the shorter one's followed by what the rest becomes.
   */
  lemma NestedKeysAgreeIff(v: VaultState, i: nat, j: nat, r: Bytes)
    requires v.Valid() && Separated(v) && i < |v.syntheticKeys| && j < |v.syntheticKeys|
    requires BestKey(v.syntheticKeys, v.syntheticKeys[i]) == Some(i)
    requires BestKey(v.syntheticKeys, v.syntheticKeys[j]) == Some(j)
    requires v.syntheticKeys[j] == v.syntheticKeys[i] + r && r != [] && LT !in v.syntheticKeys[j]
    ensures Stream(v, FRESH, [v.syntheticKeys[i], r]) == Replace(v, v.syntheticKeys[j]) <==>
      v.originalValues[j] == v.originalValues[i] + Replace(v, r)
  {
    var k, o, w := v.syntheticKeys[i], v.originalValues[i], Live(v);
    assert k in v.syntheticKeys && k != [];
    assert forall y :: y in k || y in r ==> y in k + r;
    MappedByKey(v, k);
    ReplaceKey(v, i);
    ReplaceKey(v, j);
    hide Separated, Scan, Replace, HeadOf, Stream, VaultState.Zipped, VaultState.Indexed,
      VaultState.Distinct, VaultState.TrueMax, Apart, Live, BestKey;
    TwoPlainDeltas(v, k, r);
    PlainReplaceIsScan(v, k);
    PlainReplaceIsScan(v, r);
    LiveIsApart(v);
    KeepsOriginal(v, k, i);
    hide Restorable;
    assert o[0..] == o;
    SkipOriginal(w, o, 0, r);
  }

  /** The original that a live key stands for is one the live vault can insert. */
  lemma KeepsOriginal(v: VaultState, k: Bytes, i: nat)
    requires v.Aligned() && i < |v.syntheticKeys| && v.syntheticKeys[i] == k && LT !in k
    requires BestKey(v.syntheticKeys, k) == Some(i)
    ensures v.originalValues[i] in Restorable(Live(v))
  {
    var keys, originals := v.syntheticKeys, v.originalValues;
    BestLive(keys, originals, k, |keys|);
    assert keys[..|keys|] == keys && originals[..|keys|] == originals;
    var live := LiveKeys(keys, |keys|);
    assert originals[i] == LiveOriginals(keys, originals, |keys|)[BestKey(live, k).value];
  }

  /** No original lies in another one. */
  ghost predicate OriginalsUnnested(v: VaultState) {
    forall o, o' :: o in v.originalValues && o' in v.originalValues && Factor(o, o') ==> o == o'
  }

  /** The cut in the outer key behind the inner one. */
  lemma CutBehindInner(k: Bytes, k': Bytes) returns (u: Bytes, r: Bytes, p: nat)
    requires Inside(k, k')
    ensures u + r == k' && r != [] && p <= |u| && k <= u[p..]
  {
    p :| 0 <= p < |k'| - |k| && k <= k'[p..];
    var m := p + |k|;
    u, r := k'[..m], k'[m..];
    assert k'[p..] == u[p..] + r;
  }

  /** A key inside another key: cut where the inner one is complete, the stream differs from the whole. */
  lemma NestedKeyDisagrees(v: VaultState, k: Bytes, k': Bytes) returns (u: Bytes, r: Bytes)
    requires v.Valid() && Separated(v) && OriginalsUnnested(v)
    requires k in v.syntheticKeys && k' in v.syntheticKeys && LT !in k' && Inside(k, k')
    ensures v.Aligned() && u + r == k' && Stream(v, FRESH, [u, r]) != Replace(v, k')
  {
    assert k' != [];
    hide Stream, Replace, Separated, BestKey, Inside, Factor, VaultState.TrueMax, VaultState.Indexed, VaultState.Zipped,
      VaultState.Distinct;
    var p;
    u, r, p := CutBehindInner(k, k');
    var q, i := EarlyRestore(v, u, r, p, k);
    var j := BestOfKey(v, k');
    ReplaceKey(v, j);
    FactorInMiddle(u[..q], v.originalValues[i], Replace(v, Replace(v, u[q + |v.syntheticKeys[i]|..]) + r));
    DifferentOriginals(v, i, j);
  }

  lemma DifferentOriginals(v: VaultState, i: nat, j: nat)
    requires v.Valid() && i < |v.syntheticKeys| && j < |v.syntheticKeys| && |v.syntheticKeys[i]| < |v.syntheticKeys[j]|
    ensures v.originalValues[i] != v.originalValues[j]
  {
  }

  lemma FactorInMiddle(a: Bytes, o: Bytes, z: Bytes)
    ensures Factor(o, a + (o + z))
  {
    assert (a + (o + z))[|a|..] == o + z;
    assert o <= (a + (o + z))[|a|..];
  }

  lemma BestOfKey(v: VaultState, k: Bytes) returns (j: nat)
    requires v.Aligned() && k in v.syntheticKeys && k != []
    ensures j < |v.syntheticKeys| && v.syntheticKeys[j] == k && BestKey(v.syntheticKeys, k) == Some(j)
  {
    var m :| 0 <= m < |v.syntheticKeys| && v.syntheticKeys[m] == k;
    j := BestKey(v.syntheticKeys, k).value;
  }

  /** Every plain text, however it is cut, streams as it would be rewritten whole. */
  ghost predicate PlainStreamsAgree(v: VaultState)
    requires v.Aligned()
  {
    forall deltas :: LT !in Flatten(deltas) ==> Stream(v, FRESH, deltas) == Replace(v, Flatten(deltas))
  }

  /**
   * The exact condition on a vault whose originals do not lie in one another: plain streams agree if and only if
   * no key is complete before another key that it lies in is.
   */
  lemma PlainStreamsAgreeIff(v: VaultState)
    requires v.Valid() && Separated(v) && OriginalsUnnested(v)
    ensures PlainStreamsAgree(v) <==> PlainUnnested(v)
  {
    hide Stream, Replace, Separated, Flatten, OriginalsUnnested, Inside, VaultState.TrueMax, VaultState.Indexed,
      VaultState.Zipped, VaultState.Distinct;
    if PlainUnnested(v) {
      forall deltas | LT !in Flatten(deltas) ensures Stream(v, FRESH, deltas) == Replace(v, Flatten(deltas)) {
        PlainStreamingEqualsReplace(v, deltas);
      }
    } else {
      var k, k' :| k in v.syntheticKeys && k' in v.syntheticKeys && LT !in k' && Inside(k, k');
      hide PlainUnnested;
      var u, r := NestedKeyDisagrees(v, k, k');
      FlattenTwo(u, r);
      assert Flatten([u, r]) == k';
    }
  }

  /** The same for texts with tags: the exact condition for the agreement of all admissible, cleanly cut streams. */
  lemma StreamsAgreeIff(v: VaultState)
    requires v.Valid() && Apart(v) && OriginalsUnnested(v)
    ensures StreamsAgree(v) <==> Unnested(v)
  {
    hide Stream, Cascade, Replace, Flatten, Inside, Admissible, CleanCuts, NoCut, Restorable, Separate,
      OriginalsUnnested, VaultState.TrueMax, VaultState.Indexed, VaultState.Zipped, VaultState.Distinct;
    if Unnested(v) {
      forall deltas | Admissible(v, Flatten(deltas)) && CleanCuts(Flatten(deltas), 0, deltas)
        ensures Stream(v, FRESH, deltas) == Cascade(v, Flatten(deltas))
      {
        StreamingEqualsOneShot(v, deltas);
      }
    } else {
      var k, k' :| k in v.syntheticKeys && k' in v.syntheticKeys && Inside(k, k');
      hide Unnested;
      var u, r := NestedKeyDisagrees(v, k, k');
      FlattenTwo(u, r);
      PlainIsAdmissible(v, k');
      PlainIsCleanlyCut(k', [u, r]);
      PlainCascade(v, k');
      assert Flatten([u, r]) == k';
    }
  }

  ghost predicate StreamsAgree(v: VaultState)
    requires v.Aligned()
  {
    forall deltas :: Admissible(v, Flatten(deltas)) && CleanCuts(Flatten(deltas), 0, deltas) ==>
      Stream(v, FRESH, deltas) == Cascade(v, Flatten(deltas))
  }

  lemma PlainIsCleanlyCut(t: Bytes, deltas: seq<Bytes>)
    requires LT !in t
    ensures CleanCuts(t, 0, deltas)
  {
    hide NoCut;
    PlainNoCut(t);
  }

  // ----- An instance

  /** Keys "ab" and "abc", for "X" and "Y". */
  const NESTED := VaultState(map[[88] := [97, 98], [89] := [97, 98, 99]], [[97, 98], [97, 98, 99]], [[88], [89]],
                             [[], []], [1, 1], [1.0, 1.0], [[], []], 3, map[], map[], map[])

  lemma NestedIsValid()
    ensures NESTED.Valid()
  {
    var keys := NESTED.syntheticKeys;
    assert keys[1] in keys && |keys[1]| == 3;
  }

  lemma NestedIsSeparated()
    ensures Separated(NESTED)
  {
    assert forall k :: k in NESTED.syntheticKeys ==> k == [97, 98] || k == [97, 98, 99];
    assert forall o :: o in Restorable(NESTED) ==> o == [88] || o == [89];
    hide Restorable, Factor, Overlap;
    forall k, o | k in NESTED.syntheticKeys && o in Restorable(NESTED) ensures Separate(k, o) {
      TouchingStringsShare(k, o);
      TouchingStringsShare(o, k);
    }
  }

  lemma TouchingStringsShare(a: Bytes, b: Bytes)
    ensures a != [] && (Factor(a, b) || Overlap(a, b)) ==> exists x :: x in a && x in b
  {
    if a != [] && Factor(a, b) {
      var i :| 0 <= i <= |b| && a <= b[i..];
      assert b[i..][0] == a[0] && b[i] in b;
    } else if a != [] && Overlap(a, b) {
      var j :| 0 < j < |a| && a[j..] <= b;
      assert a[j..][0] == b[0] && a[j] in a;
    }
  }

  /** With keys that are prefixes of keys the agreement fails: here "ab" is restored before "abc" is complete. */
  lemma NestedKeysDisagree()
    ensures NESTED.Valid() && Stream(NESTED, FRESH, [[97, 98], [99]]) != Replace(NESTED, [97, 98, 99])
  {
    var keys := NESTED.syntheticKeys;
    NestedIsValid();
    NestedIsSeparated();
    assert BestKey(keys, [97, 98], 1) == Some(0) && BestKey(keys, [97, 98]) == Some(0);
    assert BestKey(keys, [97, 98, 99], 1) == Some(0) && BestKey(keys, [97, 98, 99]) == Some(1);
    assert [97, 98] + [99] == [97, 98, 99];
    hide Stream, Replace, BestKey, Separated, VaultState.Valid;
    NestedKeysAgreeIff(NESTED, 0, 1, [99]);
    assert ([88] + Replace(NESTED, [99]))[0] != [89][0];
  }
}
