/** Mask, then unmask: what the client gets back is what it sent. */
module RoundTrip {
  import opened Bytes
  import opened Vault
  import opened Unmask
  import opened Masking
  import opened Rescan
  import opened Streaming

  // ----- Masking keeps the vault consistent

  lemma LearnKeeps(v: VaultState, original: Bytes, sp: Span, id: Bytes, src: Sources)
    requires v.Valid()
    ensures
      var w := Learn(v, original, sp, id, src);
      var display := Display(v, original, sp.kind, src);
      && w.Valid() && Extends(v, w)
      && original in w.originalToSynthetic && w.originalToSynthetic[original] == display
      && w.fullTokens == v.fullTokens[XmlToken(id, display) := original]
      && (w.tokenIds == v.tokenIds || w.tokenIds == v.tokenIds + [[]])
  {
    var display := Display(v, original, sp.kind, src);
    var e := Entry(original, display, sp.kind, sp.tier, sp.confidence, []);
    var e' := Entry(original, display, sp.kind, sp.tier, sp.confidence, id);
    hide VaultState.Valid, Extends, XmlToken;
    var w := InsertNew(v, e);
    InsertNewKeeps(v, e);
    AddWithTokenKeeps(w, e');
    ExtendsTransitive(v, w, AddWithToken(w, e'));
  }

  lemma {:induction false} MaskKeeps(v: VaultState, text: Bytes, spans: seq<Span>, last: nat, index: nat, src: Sources)
    requires v.Valid() && last <= |text| && forall sp :: sp in spans ==> sp.start <= sp.end
    ensures var w := Mask(v, text, spans, last, index, src).vault; w.Valid() && Extends(v, w)
    decreases |spans|
  {
    hide VaultState.Valid, Extends, Learn, XmlToken;
    if spans == [] {
      ExtendsReflexive(v);
    } else {
      var sp, rest := spans[0], spans[1..];
      if sp.start < last || sp.end > |text| {
        MaskKeeps(v, text, rest, last, index + 1, src);
      } else if text[sp.start..sp.end] in v.syntheticKeys {
        MaskKeeps(v, text, rest, sp.end, index + 1, src);
      } else {
        var original, id := text[sp.start..sp.end], Base62Digits(src.hash(index), 8);
        var w := Learn(v, original, sp, id, src);
        LearnKeeps(v, original, sp, id, src);
        MaskKeeps(w, text, rest, sp.end, index + 1, src);
        ExtendsTransitive(v, w, Mask(w, text, rest, sp.end, index + 1, src).vault);
      }
    }
  }

  // ----- What must hold of the text and the final vault

  /** Text outside the spans: it neither opens a tag nor contains a key. */
  ghost predicate Quiet(f: VaultState, gap: Bytes) {
    Find(gap, OPEN).None? && forall k :: k in f.syntheticKeys && k != [] ==> !Factor(k, gap)
  }

  /** Spans in order and disjoint, gaps quiet in the final vault `f`, and no span a synthetic when it is masked. */
  ghost predicate Maskable(v: VaultState, f: VaultState, text: Bytes, spans: seq<Span>, last: nat, index: nat,
                           src: Sources)
    requires last <= |text|
    decreases |spans|
  {
    if spans == [] then Quiet(f, text[last..])
    else
      var sp := spans[0];
      && last <= sp.start <= sp.end <= |text|
      && Quiet(f, text[last..sp.start])
      && text[sp.start..sp.end] !in v.syntheticKeys
      && Maskable(Learn(v, text[sp.start..sp.end], sp, Base62Digits(src.hash(index), 8), src), f, text, spans[1..],
                  sp.end, index + 1, src)
  }

  /** The texts of the spans that lie inside the text. */
  function SpanTexts(text: Bytes, spans: seq<Span>): set<Bytes> {
    set sp | sp in spans && sp.start <= sp.end <= |text| :: text[sp.start..sp.end]
  }

  /** Among the masked texts, no display holds a closing tag or stands for two of them. */
  ghost predicate ClearDisplays(f: VaultState, masked: set<Bytes>) {
    && (forall o :: o in masked && o in f.originalToSynthetic ==> Find(f.originalToSynthetic[o], CLOSE).None?)
    && forall o, o' | o in masked && o' in masked && o in f.originalToSynthetic && o' in f.originalToSynthetic
         :: f.originalToSynthetic[o] == f.originalToSynthetic[o'] ==> o == o'
  }

  // ----- Tokens are found where they were written

  lemma TokenDisplay(id: Bytes, d: Bytes, id': Bytes, d': Bytes)
    requires |id| == |id'|
    ensures XmlToken(id, d) == XmlToken(id', d') ==> d == d'
  {
    var t, t' := XmlToken(id, d), XmlToken(id', d');
    var n := |TOKEN_HEAD| + |id| + |TOKEN_MID|;
    assert t[n..|t| - 6] == d && t'[n..|t'| - 6] == d';
  }

  /** A tag is first found where it stands: `<` occurs in it only in front. */
  lemma FirstTag(u: Bytes, y: Bytes, w: Bytes)
    requires w == OPEN || w == CLOSE
    requires Find(u, w).None? && w <= y
    ensures Find(u + y, w) == Some(|u|)
  {
    hide Find;
    var t := u + y;
    assert t[|u|..] == y;
    forall j | 0 <= j < |u| ensures !(w <= t[j..]) {
      PrefixOfSlice(u, y, w, j);
      assert t[j..][|u| - j] == y[0] == LT;
    }
    FindIs(t, w, |u|);
  }

  /** The closing tag of a token is its own. */
  lemma TokenEnd(id: Bytes, d: Bytes, y: Bytes)
    requires LT !in id && Find(d, CLOSE).None?
    ensures Find(XmlToken(id, d) + y, CLOSE) == Some(|XmlToken(id, d)| - 6)
    ensures OPEN <= XmlToken(id, d) + y
  {
    hide Find;
    var head := TOKEN_HEAD + id + TOKEN_MID;
    var u := head + d;
    forall j | 0 <= j <= |u| ensures !(CLOSE <= u[j..]) {
      if j >= |head| {
        assert u[j..] == d[j - |head|..];
      } else {
        HeadHasNoClose(id, j);
        assert u[j..][0] == head[j] && (j == 0 ==> u[j..][1] == head[1]);
      }
    }
    assert Find(u, CLOSE).None?;
    FirstTag(u, CLOSE + y, CLOSE);
    assert XmlToken(id, d) + y == u + (CLOSE + y);
  }

  lemma HeadHasNoClose(id: Bytes, j: nat)
    requires LT !in id && j < |TOKEN_HEAD + id + TOKEN_MID|
    ensures var head := TOKEN_HEAD + id + TOKEN_MID; head[j] == LT ==> j == 0 && head[1] == 112
  {
    var head, n := TOKEN_HEAD + id + TOKEN_MID, |TOKEN_HEAD|;
    if n <= j < n + |id| { assert head[j] == id[j - n]; }
  }

  /** No key starts in quiet text. */
  lemma NoKeyInQuiet(f: VaultState, gap: Bytes, i: nat)
    requires Quiet(f, gap) && i <= |gap|
    ensures BestKey(f.syntheticKeys, gap[i..]).None?
  {
    hide Find;
    var keys := f.syntheticKeys;
    forall j | 0 <= j < |keys| && keys[j] != [] ensures !(keys[j] <= gap[i..]) {
      assert keys[j] in keys;
    }
  }

  lemma {:induction false} QuietReplace(f: VaultState, gap: Bytes, i: nat)
    requires f.Aligned() && Quiet(f, gap) && i <= |gap|
    ensures Replace(f, gap[i..]) == gap[i..]
    decreases |gap| - i
  {
    if i == |gap| {
      assert gap[i..] == [];
    } else {
      hide Quiet, BestKey, Replace;
      NoKeyInQuiet(f, gap, i);
      ReplaceCopy(f, gap[i..]);
      SuffixCons(gap, i);
      assert gap[i..][1..] == gap[i + 1..];
      QuietReplace(f, gap, i + 1);
    }
  }

  /** The cascade over a gap, a known token and the rest. */
  lemma CascadeMasked(f: VaultState, gap: Bytes, id: Bytes, d: Bytes, y: Bytes, original: Bytes)
    requires f.Aligned() && Quiet(f, gap) && LT !in id && Find(d, CLOSE).None?
    requires XmlToken(id, d) in f.fullTokens && f.fullTokens[XmlToken(id, d)] == original
    ensures Cascade(f, gap + (XmlToken(id, d) + y)) == gap + (original + Cascade(f, y))
  {
    hide Find, Replace, ExtractAttr, XmlToken;
    var token := XmlToken(id, d);
    var u := token + y;
    TokenEnd(id, d, y);
    FirstTag(gap, u, OPEN);
    var t := gap + u;
    assert t[|gap|..] == u && t[..|gap|] == gap && gap[0..] == gap;
    QuietReplace(f, gap, 0);
    assert u[..|token|] == token && u[|token|..] == y;
    assert CascadeTag(f, u) == original + Cascade(f, y);
  }

  /** A token entry survives the rest of the pass: only a token with the same display could overwrite it. */
  lemma {:induction false} TokenStays(v: VaultState, text: Bytes, spans: seq<Span>, last: nat, index: nat, src: Sources,
                                      id: Bytes, d: Bytes, original: Bytes, f: VaultState, masked: set<Bytes>)
    requires v.Valid() && last <= |text| && forall sp :: sp in spans ==> sp.start <= sp.end
    requires |id| == 8 && XmlToken(id, d) in v.fullTokens && v.fullTokens[XmlToken(id, d)] == original
    requires f == Mask(v, text, spans, last, index, src).vault
    requires SpanTexts(text, spans) <= masked
    requires forall o :: o in masked && o in f.originalToSynthetic && f.originalToSynthetic[o] == d ==> o == original
    ensures XmlToken(id, d) in f.fullTokens && f.fullTokens[XmlToken(id, d)] == original
    decreases |spans|
  {
    hide VaultState.Valid, Learn, XmlToken, Display;
    if spans == [] {
    } else {
      var sp, rest := spans[0], spans[1..];
      if sp.start < last || sp.end > |text| {
        TokenStays(v, text, rest, last, index + 1, src, id, d, original, f, masked);
      } else if text[sp.start..sp.end] in v.syntheticKeys {
        TokenStays(v, text, rest, sp.end, index + 1, src, id, d, original, f, masked);
      } else {
        var o, id' := text[sp.start..sp.end], Base62Digits(src.hash(index), 8);
        var w := Learn(v, o, sp, id', src);
        LearnKeeps(v, o, sp, id', src);
        assert f == Mask(w, text, rest, sp.end, index + 1, src).vault && o in SpanTexts(text, spans);
        MaskKeeps(w, text, rest, sp.end, index + 1, src);
        TokenDisplay(id, d, id', Display(v, o, sp.kind, src));
        TokenStays(w, text, rest, sp.end, index + 1, src, id, d, original, f, masked);
      }
    }
  }

  /** What a masking step leaves in the final vault. */
  lemma StepInFinalVault(v: VaultState, text: Bytes, spans: seq<Span>, last: nat, index: nat, src: Sources,
                         masked: set<Bytes>)
    requires v.Valid() && last <= |text| && spans != [] && forall sp :: sp in spans ==> sp.start <= sp.end
    requires last <= spans[0].start && spans[0].end <= |text| && SpanTexts(text, spans) <= masked
    requires
      var f := Mask(v, text, spans, last, index, src).vault;
      ClearDisplays(f, masked) && text[spans[0].start..spans[0].end] !in v.syntheticKeys
    ensures
      var sp := spans[0];
      var f := Mask(v, text, spans, last, index, src).vault;
      var original := text[sp.start..sp.end];
      var id := Base62Digits(src.hash(index), 8);
      var d := Display(v, original, sp.kind, src);
      var w := Learn(v, original, sp, id, src);
      var m := Mask(w, text, spans[1..], sp.end, index + 1, src);
      && w.Valid() && m.vault == f && Find(d, CLOSE).None?
      && Mask(v, text, spans, last, index, src).text == text[last..sp.start] + (XmlToken(id, d) + m.text)
      && XmlToken(id, d) in f.fullTokens && f.fullTokens[XmlToken(id, d)] == original
  {
    hide VaultState.Valid, Learn, XmlToken, Display, Find;
    var sp, rest := spans[0], spans[1..];
    var original, id := text[sp.start..sp.end], Base62Digits(src.hash(index), 8);
    var w := Learn(v, original, sp, id, src);
    MaskKeeps(v, text, spans, last, index, src);
    LearnKeeps(v, original, sp, id, src);
    MaskKeeps(w, text, rest, sp.end, index + 1, src);
    var f := Mask(v, text, spans, last, index, src).vault;
    assert original in SpanTexts(text, spans);
    TokenStays(w, text, rest, sp.end, index + 1, src, id, Display(v, original, sp.kind, src), original, f, masked);
  }

  lemma {:induction false} Unmasked(v: VaultState, text: Bytes, spans: seq<Span>, last: nat, index: nat, src: Sources,
                                    masked: set<Bytes>)
    requires v.Valid() && last <= |text| && forall sp :: sp in spans ==> sp.start <= sp.end
    requires
      var f := Mask(v, text, spans, last, index, src).vault;
      Maskable(v, f, text, spans, last, index, src) && SpanTexts(text, spans) <= masked && ClearDisplays(f, masked)
    ensures
      var m := Mask(v, text, spans, last, index, src);
      m.vault.Valid() && Cascade(m.vault, m.text) == text[last..]
    decreases |spans|
  {
    hide Learn, XmlToken, Display, Find, Cascade, Base62Digits, VaultState.Zipped, VaultState.TrueMax,
      VaultState.Indexed, VaultState.Distinct, ClearDisplays;
    var m := Mask(v, text, spans, last, index, src);
    MaskKeeps(v, text, spans, last, index, src);
    if spans == [] {
      var gap := text[last..];
      assert gap[0..] == gap;
      QuietReplace(v, gap, 0);
      QuietCascade(v, gap);
    } else {
      var sp, rest := spans[0], spans[1..];
      StepInFinalVault(v, text, spans, last, index, src, masked);
      var original, id := text[sp.start..sp.end], Base62Digits(src.hash(index), 8);
      var w := Learn(v, original, sp, id, src);
      var m' := Mask(w, text, rest, sp.end, index + 1, src);
      Unmasked(w, text, rest, sp.end, index + 1, src, masked);
      CascadeMasked(m.vault, text[last..sp.start], id, Display(v, original, sp.kind, src), m'.text, original);
      assert text[last..] == text[last..sp.start] + (original + text[sp.end..]);
    }
  }

  lemma QuietCascade(f: VaultState, gap: Bytes)
    requires f.Aligned() && Quiet(f, gap)
    ensures Cascade(f, gap) == Replace(f, gap)
  {
    hide Replace, Find;
  }

  /**
   * Mask then unmask is the identity: for spans in order whose texts are not synthetics, with quiet gaps and
   * clear displays, the cascade with the final vault over the masked text gives the text back, whatever the
   * generator produced and whatever the hash behind the token ids did.
   */
  lemma MaskThenUnmask(v: VaultState, text: Bytes, spans: seq<Span>, base: nat, src: Sources)
    requires v.Valid() && forall sp :: sp in spans ==> sp.start <= sp.end
    requires
      var f := Mask(v, text, spans, 0, base, src).vault;
      Maskable(v, f, text, spans, 0, base, src) && ClearDisplays(f, SpanTexts(text, spans))
    ensures var m := Mask(v, text, spans, 0, base, src); m.vault.Valid() && Cascade(m.vault, m.text) == text
  {
    hide Maskable, ClearDisplays, VaultState.Valid, SpanTexts, Cascade;
    Unmasked(v, text, spans, 0, base, src, SpanTexts(text, spans));
    assert text[0..] == text;
  }

  // ----- The masked text streams back

  lemma {:induction false} GapIsAdmissible(f: VaultState, gap: Bytes, i: nat, u: Bytes)
    requires Sound(f) && Quiet(f, gap) && LT !in gap && i <= |gap| && (u == [] || u[0] == LT)
    requires Admissible(f, u)
    ensures Admissible(f, gap[i..] + u)
    decreases |gap| - i
  {
    hide Admissible, Scan, Inert, HeadOf, Restorable, Separate;
    if i == |gap| {
      assert gap[i..] + u == u;
    } else {
      var t := gap[i..] + u;
      forall k | k in f.syntheticKeys ensures !(k <= t) {
        PrefixOfConcat(k, gap[i..], u);
        PrefixInside(k, gap[i..], u);
      }
      assert t[0] == gap[i] && gap[i] in gap;
      CopyByte(f, t);
      assert t[1..] == gap[i + 1..] + u;
      GapIsAdmissible(f, gap, i + 1, u);
    }
  }

  lemma TokenNotNested(id: Bytes, d: Bytes)
    requires LT !in id && LT !in d
    ensures Find(XmlToken(id, d)[1..], OPEN).None?
  {
    hide Find;
    var t := XmlToken(id, d);
    var n := |t| - 6;
    var r := t[1..];
    forall j | 0 <= j <= |r| ensures !(OPEN <= r[j..]) {
      if j < |r| {
        var head := TOKEN_HEAD + id + TOKEN_MID;
        if j + 1 < |head| {
          HeadHasNoClose(id, j + 1);
          assert r[j..][0] == t[j + 1] == head[j + 1];
        } else if j + 1 < n {
          assert r[j..][0] == t[j + 1] == d[j + 1 - |head|];
        } else {
          assert r[j..][0] == t[j + 1] == CLOSE[j + 1 - n];
          assert j + 1 == n ==> r[j..][1] == CLOSE[1];
        }
      }
    }
  }

  lemma TokenIsAdmissible(f: VaultState, id: Bytes, d: Bytes, y: Bytes)
    requires f.Aligned() && LT !in id && LT !in d && XmlToken(id, d) in f.fullTokens && Admissible(f, y)
    ensures Admissible(f, XmlToken(id, d) + y)
  {
    hide Find, XmlToken, ExtractAttr, BestKey;
    var token := XmlToken(id, d);
    var u := token + y;
    assert Find(d, CLOSE).None? by {
      forall j | 0 <= j <= |d| ensures !(CLOSE <= d[j..]) {
        if j < |d| { assert d[j..][0] == d[j]; }
      }
    }
    TokenEnd(id, d, y);
    TokenNotNested(id, d);
    assert u[..|token|] == token && u[|token|..] == y && u[1..|token|] == token[1..];
  }

  lemma {:induction false} MaskedIsAdmissible(v: VaultState, text: Bytes, spans: seq<Span>, last: nat, index: nat,
                                              src: Sources, masked: set<Bytes>)
    requires v.Valid() && last <= |text| && LT !in text && forall sp :: sp in spans ==> sp.start <= sp.end
    requires
      var f := Mask(v, text, spans, last, index, src).vault;
      && Maskable(v, f, text, spans, last, index, src) && SpanTexts(text, spans) <= masked && ClearDisplays(f, masked)
      && f.Valid() && Sound(f)
    ensures var m := Mask(v, text, spans, last, index, src); Admissible(m.vault, m.text)
    decreases |spans|
  {
    hide Learn, XmlToken, Display, Find, Admissible, Base62Digits, VaultState.Zipped, VaultState.TrueMax,
      VaultState.Indexed, VaultState.Distinct, ClearDisplays, Restorable, Separate;
    var m := Mask(v, text, spans, last, index, src);
    if spans == [] {
      var gap := text[last..];
      assert gap[0..] + [] == gap;
      EmptyIsAdmissible(v);
      GapIsAdmissible(v, gap, 0, []);
    } else {
      var sp, rest := spans[0], spans[1..];
      StepInFinalVault(v, text, spans, last, index, src, masked);
      var original, id := text[sp.start..sp.end], Base62Digits(src.hash(index), 8);
      var w, d := Learn(v, original, sp, id, src), Display(v, original, sp.kind, src);
      var m' := Mask(w, text, rest, sp.end, index + 1, src);
      MaskedIsAdmissible(w, text, rest, sp.end, index + 1, src, masked);
      DisplayIsKey(v, text, spans, last, index, src);
      TokenIsAdmissible(m.vault, id, d, m'.text);
      var gap := text[last..sp.start];
      assert gap[0..] == gap;
      TokenStart(id, d, m'.text);
      GapIsAdmissible(m.vault, gap, 0, XmlToken(id, d) + m'.text);
    }
  }

  lemma EmptyIsAdmissible(v: VaultState)
    requires v.Aligned()
    ensures Admissible(v, [])
  {
  }

  lemma TokenStart(id: Bytes, d: Bytes, y: Bytes)
    ensures (XmlToken(id, d) + y)[0] == LT
  {
  }

  /** The display written for the first span is a key of the final vault. */
  lemma DisplayIsKey(v: VaultState, text: Bytes, spans: seq<Span>, last: nat, index: nat, src: Sources)
    requires v.Valid() && last <= |text| && spans != [] && forall sp :: sp in spans ==> sp.start <= sp.end
    requires last <= spans[0].start && spans[0].end <= |text|
    requires text[spans[0].start..spans[0].end] !in v.syntheticKeys
    ensures Display(v, text[spans[0].start..spans[0].end], spans[0].kind, src)
      in Mask(v, text, spans, last, index, src).vault.syntheticKeys
  {
    hide Learn, XmlToken, Display, VaultState.TrueMax, VaultState.Indexed, VaultState.Distinct, VaultState.Zipped;
    var sp, rest := spans[0], spans[1..];
    var original, id := text[sp.start..sp.end], Base62Digits(src.hash(index), 8);
    MaskKeeps(v, text, spans, last, index, src);
    LearnKeeps(v, original, sp, id, src);
    var w := Learn(v, original, sp, id, src);
    MaskKeeps(w, text, rest, sp.end, index + 1, src);
    MappedIsKey(w, original);
  }

  lemma MappedIsKey(v: VaultState, o: Bytes)
    requires v.Valid() && o in v.originalToSynthetic
    ensures v.originalToSynthetic[o] in v.syntheticKeys
  {
    var i :| 0 <= i < |v.originalValues| && v.originalValues[i] == o;
    assert v.originalToSynthetic[o] == v.syntheticKeys[i];
  }

  /**
   * End to end: a masked text that comes back as a stream, cut anywhere but inside a `<pii`, reaches the client
   * as the original text.
   */
  lemma MaskThenStream(v: VaultState, text: Bytes, spans: seq<Span>, base: nat, src: Sources, deltas: seq<Bytes>)
    requires v.Valid() && LT !in text && forall sp :: sp in spans ==> sp.start <= sp.end
    requires
      var m := Mask(v, text, spans, 0, base, src);
      && Maskable(v, m.vault, text, spans, 0, base, src) && ClearDisplays(m.vault, SpanTexts(text, spans))
      && Sound(m.vault)
      && Flatten(deltas) == m.text && CleanCuts(m.text, 0, deltas)
    ensures Stream(Mask(v, text, spans, 0, base, src).vault, FRESH, deltas) == text
  {
    hide Mask, Maskable, ClearDisplays, Restorable, Separate, Cascade, Stream, CleanCuts, Admissible, SpanTexts,
      VaultState.TrueMax, VaultState.Indexed, VaultState.Distinct, VaultState.Zipped;
    MaskThenUnmask(v, text, spans, base, src);
    MaskedIsAdmissible(v, text, spans, 0, base, src, SpanTexts(text, spans));
    StreamingEqualsOneShot(Mask(v, text, spans, 0, base, src).vault, deltas);
  }

  // ----- Saving a vault between masking and unmasking

  /** Records that carry no token id. */
  ghost predicate NoIds(rs: seq<Record>) {
    forall i :: 0 <= i < |rs| ==> rs[i].entry.tokenId == []
  }

  /** One masking step appends at most one record, and that without an id. */
  lemma LearnRecords(v: VaultState, original: Bytes, sp: Span, id: Bytes, src: Sources) returns (added: seq<Record>)
    requires v.Valid()
    ensures
      var w := Learn(v, original, sp, id, src);
      w.Aligned() && ToRecords(w) == ToRecords(v) + added && NoIds(added)
  {
    hide XmlToken, VaultState.Zipped, VaultState.TrueMax, VaultState.Indexed, VaultState.Distinct;
    var display := Display(v, original, sp.kind, src);
    var e := Entry(original, display, sp.kind, sp.tier, sp.confidence, []);
    if original in v.originalToSynthetic {
      added := [];
    } else {
      added := [Record(e, display)];
    }
    var w := Learn(v, original, sp, id, src);
    assert ToRecords(w) == ToRecords(v) + added;
  }

  /** A masking pass appends records without ids to those the vault had. */
  lemma {:induction false} MaskStoresNoIds(v: VaultState, text: Bytes, spans: seq<Span>, last: nat, index: nat,
                                           src: Sources) returns (added: seq<Record>)
    requires v.Valid() && last <= |text| && forall sp :: sp in spans ==> sp.start <= sp.end
    ensures
      var f := Mask(v, text, spans, last, index, src).vault;
      f.Aligned() && ToRecords(f) == ToRecords(v) + added && NoIds(added)
    decreases |spans|
  {
    hide Learn, XmlToken, Display, ToRecords, VaultState.Zipped, VaultState.TrueMax, VaultState.Indexed,
      VaultState.Distinct;
    if spans == [] {
      added := [];
    } else {
      var sp, rest := spans[0], spans[1..];
      if sp.start < last || sp.end > |text| {
        added := MaskStoresNoIds(v, text, rest, last, index + 1, src);
      } else if text[sp.start..sp.end] in v.syntheticKeys {
        added := MaskStoresNoIds(v, text, rest, sp.end, index + 1, src);
      } else {
        var o, id := text[sp.start..sp.end], Base62Digits(src.hash(index), 8);
        var w := Learn(v, o, sp, id, src);
        LearnKeeps(v, o, sp, id, src);
        var first := LearnRecords(v, o, sp, id, src);
        var more := MaskStoresNoIds(w, text, rest, sp.end, index + 1, src);
        added := first + more;
        assert ToRecords(v) + first + more == ToRecords(v) + (first + more);
      }
    }
  }

  /** Records without ids restore no token. */
  lemma {:induction false} RestoredWithoutIds(rs: seq<Record>, added: seq<Record>)
    requires NoIds(added)
    ensures
      var v, w := FromRecords(rs), FromRecords(rs + added);
      w.fullTokens == v.fullTokens && w.tokenIdIndex == v.tokenIdIndex && w.displays == v.displays
    decreases |added|
  {
    if added == [] {
      assert rs + added == rs;
    } else {
      var n := |added| - 1;
      RestoredWithoutIds(rs, added[..n]);
      var all := rs + added;
      assert all[..|all| - 1] == rs + added[..n] && all[|all| - 1] == added[n];
    }
  }

  /**
   * Masking stores every new mapping before it has a token id, so none of a pass's ids is saved: after saving and
   * restoring, a token resolves as it would have without the pass. If the vault had no ids before, no token of the
   * conversation is known at any of the levels 1 to 3.
   */
  lemma RestoredVaultForgetsTokens(v: VaultState, text: Bytes, spans: seq<Span>, base: nat, src: Sources, token: Bytes)
    requires v.Valid() && forall sp :: sp in spans ==> sp.start <= sp.end
    ensures
      var f := Mask(v, text, spans, 0, base, src).vault;
      && f.Valid()
      && Resolve(FromRecords(ToRecords(f)), token) == Resolve(FromRecords(ToRecords(v)), token)
      && (NoIds(ToRecords(v)) ==> Resolve(FromRecords(ToRecords(f)), token) == token)
  {
    hide Mask, VaultState.TrueMax, VaultState.Indexed, VaultState.Distinct, VaultState.Zipped, FromRecords, ExtractAttr,
      ExtractInner, ToRecords, NoIds;
    MaskKeeps(v, text, spans, 0, base, src);
    var added := MaskStoresNoIds(v, text, spans, 0, base, src);
    RestoredWithoutIds(ToRecords(v), added);
    if NoIds(ToRecords(v)) {
      RestoredWithoutIds([], ToRecords(v));
      assert [] + ToRecords(v) == ToRecords(v);
      NothingRestored();
    }
  }
}
