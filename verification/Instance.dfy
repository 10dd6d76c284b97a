/** The conditions of the central laws can be met: one masked byte, end to end. */
module Instance {
  import opened Bytes
  import opened Vault
  import opened Unmask
  import opened Masking
  import opened Rescan
  import opened Streaming
  import opened RoundTrip
  import opened Holdback
  import opened Limits

  lemma SingleBytesAreSeparate(a: byte, b: byte)
    ensures Factor([a], [b]) ==> a == b
    ensures !Overlap([a], [b])
  {
    if Factor([a], [b]) {
      var i :| 0 <= i <= |[b]| && [a] <= [b][i..];
      assert [b][i..][0] == [a][0];
    }
  }

  /** The vault after one span with original `o` and synthetic `k`. */
  lemma LearnedFields(o: byte, k: byte, sp: Span, id: Bytes, src: Sources)
    requires src.generate(0, sp.kind, [o]) == [k]
    ensures
      var f := Learn(EMPTY, [o], sp, id, src);
      && f.Aligned() && f.syntheticKeys == [[k]] && f.originalValues == [[o]]
      && f.originalToSynthetic == map[[o] := [k]] && f.fullTokens == map[XmlToken(id, [k]) := [o]]
      && f.tokenIdIndex == map[id := [o]] && f.displays == map[[k] := [o]]
  {
    hide XmlToken;
  }

  lemma OneMasked(o: byte, k: byte, sp: Span, base: nat, src: Sources)
    requires sp.start == 0 && sp.end == 1 && src.generate(0, sp.kind, [o]) == [k]
    ensures
      var id := Base62Digits(src.hash(base), 8);
      Mask(EMPTY, [o], [sp], 0, base, src) == Masked(XmlToken(id, [k]), Learn(EMPTY, [o], sp, id, src))
  {
    hide Learn, XmlToken, Base62Digits;
    var id := Base62Digits(src.hash(base), 8);
    var f := Learn(EMPTY, [o], sp, id, src);
    assert [o][0..0] == [] && [o][0..1] == [o] && [o][1..] == [] && [sp][1..] == [];
    assert Mask(f, [o], [], 1, base + 1, src) == Masked([], f);
    assert Display(EMPTY, [o], sp.kind, src) == [k];
    assert [] + (XmlToken(id, [k]) + []) == XmlToken(id, [k]);
  }

  lemma OneKeyIsSound(f: VaultState, o: byte, k: byte)
    requires f.Aligned() && f.syntheticKeys == [[k]] && Restorable(f) <= {[o]} && o != k && o != LT && k != LT
    ensures Sound(f)
  {
    SingleBytesAreSeparate(o, k);
    SingleBytesAreSeparate(k, o);
    assert forall q :: q in f.syntheticKeys ==> q == [k];
  }

  lemma NothingIsQuiet(f: VaultState)
    ensures Quiet(f, [])
  {
    assert forall k :: k in f.syntheticKeys && k != [] ==> !Factor(k, []);
  }

  /** Masking the single byte `o` meets every condition of the round trip. */
  lemma OneByteMasks(o: byte, k: byte, sp: Span, base: nat, src: Sources)
    requires o != k && o != LT && k != LT && sp.start == 0 && sp.end == 1 && src.generate(0, sp.kind, [o]) == [k]
    ensures
      var m, id := Mask(EMPTY, [o], [sp], 0, base, src), Base62Digits(src.hash(base), 8);
      && m.text == XmlToken(id, [k])
      && Maskable(EMPTY, m.vault, [o], [sp], 0, base, src) && ClearDisplays(m.vault, SpanTexts([o], [sp]))
      && Sound(m.vault)
      && KnownToken(m.vault, m.text) && Lookup(m.vault, m.text) == Some([o])
  {
    hide Learn, Mask, Base62Digits, XmlToken, Maskable, ClearDisplays, Sound, Quiet, Find;
    var id := Base62Digits(src.hash(base), 8);
    var m := Mask(EMPTY, [o], [sp], 0, base, src);
    var f := Learn(EMPTY, [o], sp, id, src);
    OneMasked(o, k, sp, base, src);
    LearnedFields(o, k, sp, id, src);
    OneKeyIsSound(f, o, k);
    NothingIsQuiet(f);
    NoCloseIn(k);
    OneSpan(f, o, k, sp, base, src);
    TokenEnd(id, [k], []);
    TokenNotNested(id, [k]);
    assert XmlToken(id, [k]) + [] == XmlToken(id, [k]);
  }

  lemma NoCloseIn(k: byte)
    ensures Find([k], CLOSE).None?
  {
  }

  lemma OneSpan(f: VaultState, o: byte, k: byte, sp: Span, base: nat, src: Sources)
    requires f.originalToSynthetic == map[[o] := [k]] && Quiet(f, []) && sp.start == 0 && sp.end == 1
    ensures Maskable(EMPTY, f, [o], [sp], 0, base, src) && ClearDisplays(f, SpanTexts([o], [sp]))
  {
    hide Quiet, Learn, Base62Digits;
    NoCloseIn(k);
    assert [o][0..0] == [] && [o][0..1] == [o] && [o][1..] == [];
    var w := Learn(EMPTY, [o], sp, Base62Digits(src.hash(base), 8), src);
    assert Maskable(w, f, [o], [], 1, base + 1, src);
    assert [sp][1..] == [];
  }

  /** The token, cut anywhere behind its `<pii`, streams back to the byte. */
  lemma OneByteRoundTrip(o: byte, k: byte, sp: Span, base: nat, src: Sources, n: nat)
    requires o != k && o != LT && k != LT && sp.start == 0 && sp.end == 1 && src.generate(0, sp.kind, [o]) == [k]
    requires 4 <= n < |Mask(EMPTY, [o], [sp], 0, base, src).text|
    ensures
      var m := Mask(EMPTY, [o], [sp], 0, base, src);
      m.vault.Valid() && Stream(m.vault, FRESH, [m.text[..n], m.text[n..]]) == [o]
  {
    hide Stream, Mask, Maskable, ClearDisplays, Lookup, Sound, KnownToken;
    OneByteMasks(o, k, sp, base, src);
    EmptyIsValid();
    MaskThenUnmask(EMPTY, [o], [sp], base, src);
    var m := Mask(EMPTY, [o], [sp], 0, base, src);
    CutBehindTag(m.vault, m.text, n);
  }

  lemma ShortKeyHasNoPrefix(k: byte)
    ensures KeyPrefixes([[k]]) == {}
  {
    assert forall q :: q in [[k]] ==> q == [k];
  }

  /** Nothing triggers a holdback, so a part of `<pii` that no key lies in leaves. */
  lemma NothingIsHeld(f: VaultState, k: byte, n: nat)
    requires Apart(f) && f.syntheticKeys == [[k]] && 0 < n < 4 && TagPartIsKeyless(f, n)
    ensures Replace(f, []) == [] && Leaves(f, [], n) == n
  {
    hide KeyPrefixes, TagPartIsKeyless, Scan, Apart;
    assert f.Aligned() by { ApartIsAligned(f); }
    assert OPEN[0..n] == OPEN[..n];
    TagPartScan(f, 0, n);
    ShortKeyHasNoPrefix(k);
    NoTagYet([], n);
    assert [] + OPEN[..n] == OPEN[..n];
  }

  /** A token alone in two deltas, cut inside its `<pii`, is lost if the only key is one byte. */
  lemma LoneTokenLost(f: VaultState, k: byte, token: Bytes, n: nat)
    requires f.Valid() && Sound(f) && f.syntheticKeys == [[k]] && KnownToken(f, token) && 0 < n < 4
    ensures Stream(f, FRESH, [OPEN[..n], token[n..]]) != Scan(f, token)
  {
    FreshIsEmpty(f);
    KnownTokenIsLong(f, token);
    assert |OPEN| == 4 && Apart(f);
    hide OPEN, Stream, Scan, Cascade, Replace, Leaves, Admissible, CleanCuts, Sound, Apart, Cached, Find, KnownToken,
      VaultState.Valid, Flatten, Lookup, KeysAvoidTags, CutText, TagPartIsKeyless;
    KnownTokenScan(f, token);
    LastCutIsClean(token, n);
    CutParts(token, n);
    if TagPartIsKeyless(f, n) { NothingIsHeld(f, k, n); }
    CutTokenRestoredIff(f, FRESH, [], token, n, [token[n..]]);
    CascadeIsScan(f, token);
  }

  lemma KnownTokenIsLong(v: VaultState, token: Bytes)
    requires KnownToken(v, token)
    ensures OPEN <= token && |token| > 4 && Find(token[1..], OPEN).None?
  {
  }

  lemma FreshIsEmpty(f: VaultState)
    requires Sound(f)
    ensures f.Aligned() && Cached(f, FRESH) && FRESH.buffer + [] == [] && KeysAvoidTags(f)
  {
  }

  lemma CutParts(token: Bytes, n: nat)
    requires OPEN <= token && 0 < n < 4
    ensures OPEN[..n] + Flatten([token[n..]]) == token && CutText([], n, [token[n..]]) == token
    ensures [[] + OPEN[..n]] + [token[n..]] == [OPEN[..n], token[n..]] && token[..n] == OPEN[..n]
  {
    FlattenOne(token[n..]);
    assert OPEN[..n] + token[n..] == token && [] + token == token && [] + OPEN[..n] == OPEN[..n];
  }

  /** The token, cut anywhere inside its `<pii`, is lost. */
  lemma OneByteLost(o: byte, k: byte, sp: Span, base: nat, src: Sources, n: nat)
    requires o != k && o != LT && k != LT && sp.start == 0 && sp.end == 1 && src.generate(0, sp.kind, [o]) == [k]
    requires 0 < n < 4
    ensures
      var m := Mask(EMPTY, [o], [sp], 0, base, src);
      m.vault.Valid() && |m.text| > 4 && Stream(m.vault, FRESH, [m.text[..n], m.text[n..]]) != [o]
  {
    hide Base62Digits, Maskable, ClearDisplays, Mask, Learn, Sound, KnownToken, XmlToken, SpanTexts;
    OneByteMasks(o, k, sp, base, src);
    OneMasked(o, k, sp, base, src);
    LearnedFields(o, k, sp, Base62Digits(src.hash(base), 8), src);
    KnownTokenIsLong(Mask(EMPTY, [o], [sp], 0, base, src).vault, Mask(EMPTY, [o], [sp], 0, base, src).text);
    hide Stream, Lookup, Scan, VaultState.Valid;
    EmptyIsValid();
    MaskThenUnmask(EMPTY, [o], [sp], base, src);
    var m := Mask(EMPTY, [o], [sp], 0, base, src);
    LoneTokenLost(m.vault, k, m.text, n);
    KnownTokenScan(m.vault, m.text);
    CutParts(m.text, n);
  }

  lemma LastCutIsClean(token: Bytes, n: nat)
    requires OPEN <= token && Find(token[1..], OPEN).None? && n <= |token|
    ensures CleanCuts(token, n, [token[n..]])
  {
    hide Find;
    OnlyTagInFront(token, n);
    FlattenOne(token[n..]);
    assert [token[n..]][..1] == [token[n..]];
  }
}
