/** What masking passes leave in a vault, over any number of passes. */
module Passes {
  import opened Bytes
  import opened Vault
  import opened Masking
  import opened Spans
  import opened RoundTrip

  // ----- Synthetics are never masked again

  /** A pass over synthetics returns the text and the vault as they are. */
  lemma {:induction false} SynthesizedTextStays(v: VaultState, text: Bytes, spans: seq<Span>, last: nat, index: nat,
                                                src: Sources)
    requires last <= |text| && forall sp :: sp in spans ==> sp.start <= sp.end
    requires forall sp :: sp in spans && sp.end <= |text| ==> text[sp.start..sp.end] in v.syntheticKeys
    ensures Mask(v, text, spans, last, index, src) == Masked(text[last..], v)
    decreases |spans|
  {
    hide Learn, Base62Digits, Display, XmlToken;
    if spans == [] {
    } else {
      var sp, rest := spans[0], spans[1..];
      assert sp in spans && (forall x :: x in rest ==> x in spans);
      if sp.start < last || sp.end > |text| {
        SynthesizedTextStays(v, text, rest, last, index + 1, src);
      } else {
        SynthesizedTextStays(v, text, rest, sp.end, index + 1, src);
        assert text[last..] == text[last..sp.start] + (text[sp.start..sp.end] + text[sp.end..]);
      }
    }
  }

  /** From row `from` on, no original was a synthetic already when it was mapped. */
  ghost predicate NeverChained(v: VaultState, from: nat) {
    forall i :: from <= i < |v.originalValues| && i <= |v.syntheticKeys| ==>
      v.originalValues[i] !in v.syntheticKeys[..i]
  }

  /** One masking step appends the row of the span's text, or nothing. */
  lemma LearnAppends(v: VaultState, original: Bytes, sp: Span, id: Bytes, src: Sources)
    requires v.Aligned()
    ensures
      var w := Learn(v, original, sp, id, src);
      var display := Display(v, original, sp.kind, src);
      && w.Aligned()
      && w.originalValues == v.originalValues + (if original in v.originalToSynthetic then [] else [original])
      && w.syntheticKeys == v.syntheticKeys + (if original in v.originalToSynthetic then [] else [display])
  {
    hide XmlToken;
  }

  /** A row that is no synthetic yet keeps the whole list unchained. */
  lemma ChainStep(v: VaultState, w: VaultState, o: Bytes, k: Bytes, from: nat)
    requires v.Aligned() && w.Aligned() && from <= |v.originalValues| && NeverChained(v, from) && o !in v.syntheticKeys
    requires w.originalValues == v.originalValues + [o] && w.syntheticKeys == v.syntheticKeys + [k]
    ensures NeverChained(w, from)
  {
    var n := |v.originalValues|;
    assert w.syntheticKeys[..n] == v.syntheticKeys;
    forall i | from <= i < n ensures w.originalValues[i] !in w.syntheticKeys[..i] {
      assert w.syntheticKeys[..i] == v.syntheticKeys[..i];
    }
  }

  lemma {:induction false} MaskNeverChains(v: VaultState, text: Bytes, spans: seq<Span>, last: nat, index: nat,
                                           src: Sources, from: nat)
    requires v.Aligned() && from <= |v.originalValues| && NeverChained(v, from)
    requires last <= |text| && forall sp :: sp in spans ==> sp.start <= sp.end
    ensures var f := Mask(v, text, spans, last, index, src).vault; f.Aligned() && NeverChained(f, from)
    decreases |spans|
  {
    hide Learn, Base62Digits, Display, XmlToken, NeverChained, VaultState.Aligned;
    if spans == [] {
    } else {
      var sp, rest := spans[0], spans[1..];
      if sp.start < last || sp.end > |text| {
        MaskNeverChains(v, text, rest, last, index + 1, src, from);
      } else if text[sp.start..sp.end] in v.syntheticKeys {
        MaskNeverChains(v, text, rest, sp.end, index + 1, src, from);
      } else {
        var o, id := text[sp.start..sp.end], Base62Digits(src.hash(index), 8);
        var w := Learn(v, o, sp, id, src);
        LearnNeverChains(v, o, sp, id, src, from);
        MaskNeverChains(w, text, rest, sp.end, index + 1, src, from);
      }
    }
  }

  lemma LearnNeverChains(v: VaultState, o: Bytes, sp: Span, id: Bytes, src: Sources, from: nat)
    requires v.Aligned() && from <= |v.originalValues| && NeverChained(v, from) && o !in v.syntheticKeys
    ensures var w := Learn(v, o, sp, id, src); w.Aligned() && from <= |w.originalValues| && NeverChained(w, from)
  {
    hide Learn, Display;
    LearnAppends(v, o, sp, id, src);
    var w := Learn(v, o, sp, id, src);
    if o in v.originalToSynthetic {
      assert w.originalValues == v.originalValues && w.syntheticKeys == v.syntheticKeys;
    } else {
      ChainStep(v, w, o, Display(v, o, sp.kind, src), from);
    }
  }

  /** One text to mask. */
  datatype Pass = Pass(text: Bytes, spans: seq<Span>, base: nat, src: Sources)
  {
    predicate Proper() {
      forall sp :: sp in spans ==> sp.start <= sp.end
    }
  }

  function RunPasses(v: VaultState, ps: seq<Pass>): VaultState
    requires forall p :: p in ps ==> p.Proper()
    decreases |ps|
  {
    if ps == [] then v
    else
      assert ps[0] in ps && ps[0].Proper();
      RunPasses(Mask(v, ps[0].text, ps[0].spans, 0, ps[0].base, ps[0].src).vault, ps[1..])
  }

  /** Over every run of passes, no text that was a synthetic when its span was reached becomes an original. */
  lemma {:induction false} PassesNeverChain(v: VaultState, ps: seq<Pass>, from: nat)
    requires v.Aligned() && from <= |v.originalValues| && NeverChained(v, from) && forall p :: p in ps ==> p.Proper()
    ensures var f := RunPasses(v, ps); f.Aligned() && NeverChained(f, from)
    decreases |ps|
  {
    hide Mask, NeverChained, VaultState.Aligned;
    if ps == [] {
    } else {
      var p := ps[0];
      assert p in ps && p.Proper();
      MaskNeverChains(v, p.text, p.spans, 0, p.base, p.src, from);
      MaskOnlyAppends(v, p.text, p.spans, 0, p.base, p.src);
      PassesNeverChain(Mask(v, p.text, p.spans, 0, p.base, p.src).vault, ps[1..], from);
    }
  }

  lemma {:induction false} MaskOnlyAppends(v: VaultState, text: Bytes, spans: seq<Span>, last: nat, index: nat,
                                           src: Sources)
    requires v.Aligned() && last <= |text| && forall sp :: sp in spans ==> sp.start <= sp.end
    ensures |v.originalValues| <= |Mask(v, text, spans, last, index, src).vault.originalValues|
    decreases |spans|
  {
    hide Learn, Base62Digits, Display, XmlToken;
    if spans == [] {
    } else {
      var sp, rest := spans[0], spans[1..];
      if sp.start < last || sp.end > |text| {
        MaskOnlyAppends(v, text, rest, last, index + 1, src);
      } else if text[sp.start..sp.end] in v.syntheticKeys {
        MaskOnlyAppends(v, text, rest, sp.end, index + 1, src);
      } else {
        var o, id := text[sp.start..sp.end], Base62Digits(src.hash(index), 8);
        LearnAppends(v, o, sp, id, src);
        MaskOnlyAppends(Learn(v, o, sp, id, src), text, rest, sp.end, index + 1, src);
      }
    }
  }

  /** In a vault that only passes have filled, no original was a synthetic when it was mapped. */
  lemma NewVaultNeverChains(ps: seq<Pass>)
    requires forall p :: p in ps ==> p.Proper()
    ensures var f := RunPasses(EMPTY, ps); f.Aligned() && NeverChained(f, 0)
  {
    PassesNeverChain(EMPTY, ps, 0);
  }

  // ----- Displays

  /** The display in a token is the synthetic of its text in the final vault. */
  lemma {:induction false} DisplayIsFinal(v: VaultState, text: Bytes, spans: seq<Span>, last: nat, index: nat,
                                          src: Sources, i: nat)
    requires v.Valid() && last <= |text| && InLine(text, spans, last) && i < |spans|
    requires forall sp :: sp in spans ==> sp.start <= sp.end <= |text|
    ensures
      var f := Mask(v, text, spans, last, index, src).vault;
      var turn := AtTurn(v, text, spans, last, index, src, i);
      var original := text[spans[i].start..spans[i].end];
      original !in turn.syntheticKeys ==>
        && original in f.originalToSynthetic
        && f.originalToSynthetic[original] == Display(turn, original, spans[i].kind, src)
    decreases |spans|
  {
    hide Learn, Base62Digits, Display, XmlToken, VaultState.Valid, Mask, Replacement, AtTurn, Extends;
    var sp, rest := spans[0], spans[1..];
    var o, id := text[sp.start..sp.end], Base62Digits(src.hash(index), 8);
    var w := NextVault(v, text, sp, index, src);
    MaskFirst(v, text, spans, last, index, src);
    if o !in v.syntheticKeys { LearnKeeps(v, o, sp, id, src); }
    if i == 0 {
      TurnOfFirst(v, text, spans, last, index, src);
      MaskKeeps(w, text, rest, sp.end, index + 1, src);
      KeptMapping(w, Mask(w, text, rest, sp.end, index + 1, src).vault, o);
    } else {
      TurnOfRest(v, text, spans, last, index, src, i);
      DisplayIsFinal(w, text, rest, sp.end, index + 1, src, i - 1);
    }
  }

  lemma KeptMapping(v: VaultState, w: VaultState, o: Bytes)
    requires Extends(v, w)
    ensures o in v.originalToSynthetic ==>
      o in w.originalToSynthetic && w.originalToSynthetic[o] == v.originalToSynthetic[o]
  {
  }

  // ----- Records

  /** A valid vault has one row for each mapping. */
  lemma RowsAreMappings(v: VaultState)
    requires v.Valid()
    ensures |v.originalToSynthetic| == |v.originalValues|
  {
    var os := v.originalValues;
    DistinctCount(os);
    assert v.originalToSynthetic.Keys == set o | o in os;
    assert |v.originalToSynthetic| == |v.originalToSynthetic.Keys|;
  }

  lemma {:induction false} DistinctCount(os: seq<Bytes>)
    requires forall i, j :: 0 <= i < j < |os| ==> os[i] != os[j]
    ensures |set o | o in os| == |os|
  {
    if os == [] {
    } else {
      var n := |os| - 1;
      DistinctCount(os[..n]);
      assert (set o | o in os) == (set o | o in os[..n]) + {os[n]};
    }
  }

  /** A record of a span: its text, kind, tier and confidence, and the synthetic generated for row `row`. */
  ghost predicate RecordOf(r: Record, text: Bytes, spans: seq<Span>, row: nat, src: Sources) {
    exists sp ::
      && sp in spans && sp.start <= sp.end <= |text|
      && var original := text[sp.start..sp.end];
      && var synthetic := src.generate(row, sp.kind, original);
      && r == Record(Entry(original, synthetic, sp.kind, sp.tier, sp.confidence, []), synthetic)
  }

  /** Records of spans, in rows from `row` on. */
  ghost predicate RecordsOf(rs: seq<Record>, text: Bytes, spans: seq<Span>, row: nat, src: Sources) {
    forall j :: 0 <= j < |rs| ==> RecordOf(rs[j], text, spans, row + j, src)
  }

  lemma RecordOfMore(r: Record, text: Bytes, rest: seq<Span>, spans: seq<Span>, row: nat, src: Sources)
    requires RecordOf(r, text, rest, row, src) && forall sp :: sp in rest ==> sp in spans
    ensures RecordOf(r, text, spans, row, src)
  {
  }

  lemma LearnRecord(v: VaultState, text: Bytes, sp: Span, id: Bytes, src: Sources) returns (added: seq<Record>)
    requires v.Valid() && sp.start <= sp.end <= |text|
    ensures
      var w := Learn(v, text[sp.start..sp.end], sp, id, src);
      && w.Aligned() && ToRecords(w) == ToRecords(v) + added && |added| <= 1
      && |w.originalValues| == |v.originalValues| + |added|
      && (added != [] ==> RecordOf(added[0], text, [sp], |v.originalValues|, src))
  {
    hide XmlToken, VaultState.Zipped, VaultState.TrueMax, VaultState.Indexed, VaultState.Distinct;
    RowsAreMappings(v);
    var original := text[sp.start..sp.end];
    var display := Display(v, original, sp.kind, src);
    var r := Record(Entry(original, display, sp.kind, sp.tier, sp.confidence, []), display);
    added := if original in v.originalToSynthetic then [] else [r];
    assert sp in [sp];
    var w := Learn(v, original, sp, id, src);
    assert ToRecords(w) == ToRecords(v) + added;
  }

  /** What a pass adds: each row from one of its spans, with a synthetic generated for that row's number. */
  lemma {:induction false} PassRecords(v: VaultState, text: Bytes, spans: seq<Span>, last: nat, index: nat,
                                       src: Sources) returns (added: seq<Record>)
    requires v.Valid() && last <= |text| && forall sp :: sp in spans ==> sp.start <= sp.end
    ensures
      var f := Mask(v, text, spans, last, index, src).vault;
      f.Aligned() && ToRecords(f) == ToRecords(v) + added
    ensures RecordsOf(added, text, spans, |v.originalValues|, src)
    decreases |spans|
  {
    hide Learn, Base62Digits, Display, XmlToken, ToRecords, RecordOf, VaultState.Zipped, VaultState.TrueMax,
      VaultState.Indexed, VaultState.Distinct;
    if spans == [] {
      added := [];
      assert ToRecords(v) == ToRecords(v) + [];
    } else {
      var sp, rest := spans[0], spans[1..];
      assert forall x :: x in rest ==> x in spans;
      hide RecordsOf;
      var more: seq<Record>;
      var first: seq<Record> := [];
      if sp.start < last || sp.end > |text| {
        more := PassRecords(v, text, rest, last, index + 1, src);
      } else if text[sp.start..sp.end] in v.syntheticKeys {
        more := PassRecords(v, text, rest, sp.end, index + 1, src);
      } else {
        var o, id := text[sp.start..sp.end], Base62Digits(src.hash(index), 8);
        LearnKeeps(v, o, sp, id, src);
        first := LearnRecord(v, text, sp, id, src);
        more := PassRecords(Learn(v, o, sp, id, src), text, rest, sp.end, index + 1, src);
      }
      added := first + more;
      hide Mask;
      JoinRecords(ToRecords(v), first, more);
      JoinRecordsOf(text, sp, spans, |v.originalValues|, src, first, more);
    }
  }

  lemma JoinRecordsOf(text: Bytes, sp: Span, spans: seq<Span>, row: nat, src: Sources, first: seq<Record>,
                      more: seq<Record>)
    requires spans != [] && sp == spans[0] && |first| <= 1
    requires first != [] ==> RecordOf(first[0], text, [sp], row, src)
    requires RecordsOf(more, text, spans[1..], row + |first|, src)
    ensures RecordsOf(first + more, text, spans, row, src)
  {
    hide RecordOf;
    if first != [] { RecordOfMore(first[0], text, [sp], spans, row, src); }
    forall j | 0 <= j < |more| ensures RecordOf(more[j], text, spans, row + |first| + j, src) {
      RecordOfMore(more[j], text, spans[1..], spans, row + |first| + j, src);
    }
    forall j | 0 <= j < |first + more| ensures RecordOf((first + more)[j], text, spans, row + j, src) {
      if j >= |first| { assert (first + more)[j] == more[j - |first|]; }
    }
  }

  lemma JoinRecords(a: seq<Record>, b: seq<Record>, c: seq<Record>)
    ensures (a + b) + c == a + (b + c) && [] + c == c
  {
  }
}
