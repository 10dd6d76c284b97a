/** Deltas interleaved with changes of the vault: the cached trigger prefixes are never out of date. */
module Interleaved {
  import opened Bytes
  import opened Vault
  import opened Unmask
  import opened Holdback
  import opened Streaming

  datatype Event = Arrives(delta: Bytes) | Changes(op: Op)
  {
    predicate Allowed() {
      Changes? && op.Drain? ==> op.from.Aligned()
    }
  }

  ghost predicate AllAllowed(es: seq<Event>) {
    forall e :: e in es ==> e.Allowed()
  }

  // ----- The count of mappings grows with the keys

  /** A vault without mappings has no keys. */
  predicate Keyed(v: VaultState) {
    v.originalToSynthetic == map[] ==> v.syntheticKeys == []
  }

  /** Keys were only appended, and each of them added a mapping. */
  ghost predicate Grew(u: VaultState, v: VaultState) {
    && u.syntheticKeys <= v.syntheticKeys
    && |v.originalToSynthetic| == |u.originalToSynthetic| + |v.syntheticKeys| - |u.syntheticKeys|
  }

  lemma GrewTransitive(u: VaultState, v: VaultState, w: VaultState)
    requires Grew(u, v) && Grew(v, w)
    ensures Grew(u, w)
  {
  }

  lemma InsertGrows(v: VaultState, e: Entry)
    ensures Grew(v, InsertNew(v, e)) && (v.Aligned() ==> InsertNew(v, e).Aligned())
    ensures Keyed(v) ==> Keyed(InsertNew(v, e))
  {
    if e.original !in v.originalToSynthetic {
      OneMore(v.originalToSynthetic, e.original, e.synthetic);
      assert e.original in InsertNew(v, e).originalToSynthetic;
    }
  }

  lemma OneMore(m: map<Bytes, Bytes>, o: Bytes, k: Bytes)
    requires o !in m
    ensures |m[o := k]| == |m| + 1
  {
    assert m[o := k].Keys == m.Keys + {o};
    assert |m| == |m.Keys| && |m[o := k]| == |m[o := k].Keys|;
  }

  lemma {:induction false} InsertAllGrows(v: VaultState, es: seq<Entry>)
    ensures Grew(v, InsertAll(v, es)) && (Keyed(v) ==> Keyed(InsertAll(v, es)))
    decreases |es|
  {
    if es == [] {
    } else {
      hide InsertNew, Keyed, Grew;
      InsertGrows(v, es[0]);
      InsertAllGrows(InsertNew(v, es[0]), es[1..]);
      GrewTransitive(v, InsertNew(v, es[0]), InsertAll(v, es));
    }
  }

  /** Every operation on a vault, whether it holds repeated originals or not. */
  lemma ApplyGrows(v: VaultState, op: Op)
    requires v.Aligned() && (op.Drain? ==> op.from.Aligned())
    ensures Apply(v, op).Aligned() && Grew(v, Apply(v, op)) && (Keyed(v) ==> Keyed(Apply(v, op)))
  {
    match op
    case Add(e) =>
      InsertGrows(v, e);
    case AddToken(e) =>
      InsertGrows(v, e);
    case Drain(from) =>
      InsertAllGrows(v, Quints(from));
      MergeIsAligned(v, from);
  }

  /** Every restored vault is keyed, repeated originals or not. */
  lemma RestoredIsKeyed(rs: seq<Record>)
    ensures FromRecords(rs).Aligned() && Keyed(FromRecords(rs))
  {
    RestoredAligned(rs);
    if rs != [] { assert rs[|rs| - 1].entry.original in FromRecords(rs).originalToSynthetic; }
  }

  // ----- The cache

  /** The cache is as new, or was taken from a vault that has only grown since. */
  ghost predicate Current(v: VaultState, st: BufferState) {
    || (st.cachedCount == 0 && st.prefixes == {})
    || exists u :: Grew(u, v) && st.cachedCount == |u.originalToSynthetic|
                   && st.prefixes == KeyPrefixes(u.syntheticKeys)
  }

  /** The prefixes a delta uses are those of the vault at that moment. */
  lemma RefreshIsCurrent(v: VaultState, st: BufferState)
    requires Keyed(v) && Current(v, st)
    ensures Refresh(v, st).prefixes == KeyPrefixes(v.syntheticKeys)
    ensures Refresh(v, st).cachedCount == |v.originalToSynthetic|
  {
    if |v.originalToSynthetic| == st.cachedCount {
      if st.cachedCount == 0 && st.prefixes == {} {
        assert KeyPrefixes([]) == {};
      } else {
        hide KeyPrefixes;
        var u :| Grew(u, v) && st.cachedCount == |u.originalToSynthetic| && st.prefixes == KeyPrefixes(u.syntheticKeys);
        assert u.syntheticKeys == v.syntheticKeys;
      }
    }
  }

  lemma GrewReflexive(v: VaultState)
    ensures Grew(v, v)
  {
  }

  lemma CurrentAfterOp(v: VaultState, st: BufferState, op: Op)
    requires v.Aligned() && Current(v, st) && (op.Drain? ==> op.from.Aligned())
    ensures Current(Apply(v, op), st)
  {
    hide Grew, Apply, KeyPrefixes;
    ApplyGrows(v, op);
    if !(st.cachedCount == 0 && st.prefixes == {}) {
      var u :| Grew(u, v) && st.cachedCount == |u.originalToSynthetic| && st.prefixes == KeyPrefixes(u.syntheticKeys);
      GrewTransitive(u, v, Apply(v, op));
    }
  }

  /** One delta with prefixes computed anew. */
  function UncachedStep(v: VaultState, buffer: Bytes, d: Bytes): (Bytes, Bytes)
    requires v.Aligned()
  {
    if d == [] then ([], buffer)
    else if v.originalToSynthetic == map[] then (buffer + d, [])
    else
      var x := Cascade(v, buffer + d);
      var s := FlushPoint(v, x, KeyPrefixes(v.syntheticKeys));
      (x[..s], x[s..])
  }

  lemma StepIsUncached(v: VaultState, st: BufferState, d: Bytes)
    requires v.Aligned() && Keyed(v) && Current(v, st)
    ensures
      var (out, st') := DeltaStep(v, st, d);
      (out, st'.buffer) == UncachedStep(v, st.buffer, d) && Current(v, st')
  {
    hide Cascade, FlushPoint, KeyPrefixes, Keyed, Refresh;
    var more := st.(buffer := st.buffer + d);
    RefreshKeepsBuffer(v, more);
    CurrentIgnoresBuffer(v, st, more);
    RefreshIsCurrent(v, more);
    GrewReflexive(v);
  }

  lemma RefreshKeepsBuffer(v: VaultState, st: BufferState)
    ensures Refresh(v, st).buffer == st.buffer
  {
  }

  lemma CurrentIgnoresBuffer(v: VaultState, a: BufferState, b: BufferState)
    requires Current(v, a) && a.prefixes == b.prefixes && a.cachedCount == b.cachedCount
    ensures Current(v, b)
  {
    hide Grew, KeyPrefixes;
  }

  // ----- Whole runs

  /** Everything a client receives while deltas arrive and the vault changes. */
  ghost function Outputs(v: VaultState, st: BufferState, es: seq<Event>): Bytes
    requires v.Aligned() && AllAllowed(es)
    decreases |es|
  {
    if es == [] then Remaining(v, st)
    else
      assert es[0].Allowed();
      match es[0]
      case Arrives(d) =>
        var (out, st') := DeltaStep(v, st, d);
        out + Outputs(v, st', es[1..])
      case Changes(op) =>
        ApplyGrows(v, op);
        Outputs(Apply(v, op), st, es[1..])
  }

  /** The same without a cache. */
  ghost function UncachedOutputs(v: VaultState, buffer: Bytes, es: seq<Event>): Bytes
    requires v.Aligned() && AllAllowed(es)
    decreases |es|
  {
    if es == [] then (if buffer == [] then [] else Cascade(v, buffer))
    else
      assert es[0].Allowed();
      match es[0]
      case Arrives(d) =>
        var (out, rest) := UncachedStep(v, buffer, d);
        out + UncachedOutputs(v, rest, es[1..])
      case Changes(op) =>
        ApplyGrows(v, op);
        UncachedOutputs(Apply(v, op), buffer, es[1..])
  }

  /**
   * The cache is transparent: however deltas and changes of the vault are interleaved, the client receives what it
   * would if the prefixes were computed anew for each delta.
   */
  lemma {:induction false} CacheIsTransparent(v: VaultState, st: BufferState, es: seq<Event>)
    requires v.Aligned() && Keyed(v) && Current(v, st) && AllAllowed(es)
    ensures Outputs(v, st, es) == UncachedOutputs(v, st.buffer, es)
    decreases |es|
  {
    hide DeltaStep, UncachedStep, Current, Keyed, Apply, Cascade, Grew;
    if es == [] {
    } else {
      assert es[0].Allowed();
      match es[0]
      case Arrives(d) =>
        StepIsUncached(v, st, d);
        CacheIsTransparent(v, DeltaStep(v, st, d).1, es[1..]);
      case Changes(op) =>
        ApplyGrows(v, op);
        CurrentAfterOp(v, st, op);
        CacheIsTransparent(Apply(v, op), st, es[1..]);
    }
  }

  /** In particular for a new buffer over any valid or restored vault. */
  lemma NewBufferIsTransparent(v: VaultState, rs: seq<Record>, es: seq<Event>)
    requires AllAllowed(es) && (v.Valid() || v == FromRecords(rs))
    ensures v.Aligned() && Outputs(v, FRESH, es) == UncachedOutputs(v, [], es)
  {
    hide FromRecords, Outputs, UncachedOutputs, AllAllowed;
    if v.Valid() {
      if v.originalToSynthetic == map[] { NoMappings(v); }
    } else {
      RestoredIsKeyed(rs);
    }
    CacheIsTransparent(v, FRESH, es);
  }
}
