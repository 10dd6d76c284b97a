/** Rewriting text that was already rewritten: the conditions under which it is harmless, and why. */
module Rescan {
  import opened Bytes
  import opened Vault
  import opened Unmask

  /** Every original that a rewrite can insert. */
  function Restorable(v: VaultState): set<Bytes> {
    (set o | o in v.originalValues) + v.fullTokens.Values + v.tokenIdIndex.Values + v.displays.Values
  }

  /** Neither string contains the other, and neither ends with the beginning of the other. */
  ghost predicate Separate(a: Bytes, b: Bytes) {
    !Factor(a, b) && !Factor(b, a) && !Overlap(a, b) && !Overlap(b, a)
  }

  /** Keys and originals neither contain nor overlap each other, and none of them opens a tag. */
  ghost predicate Apart(v: VaultState) {
    && v.Aligned()
    && (forall k :: k in v.syntheticKeys ==> k != [] && LT !in k)
    && (forall o :: o in Restorable(v) ==> o != [] && LT !in o)
    && (forall k, o :: k in v.syntheticKeys && o in Restorable(v) ==> Separate(k, o))
  }

  /** No key is complete before another key that it lies in is. */
  ghost predicate Unnested(v: VaultState) {
    forall k, k' :: k in v.syntheticKeys && k' in v.syntheticKeys ==> !Inside(k, k')
  }

  /** What a vault must satisfy for rewritten text to be safe to rewrite again. */
  ghost predicate Sound(v: VaultState) {
    Apart(v) && Unnested(v)
  }

  /** No key is a prefix of `t`. */
  ghost predicate NoKey(v: VaultState, t: Bytes) {
    forall k :: k in v.syntheticKeys ==> !(k <= t)
  }

  lemma NoKeyIsNone(v: VaultState, t: Bytes)
    requires Apart(v)
    ensures NoKey(v, t) <==> BestKey(v.syntheticKeys, t).None?
  {
    var keys := v.syntheticKeys;
    forall k | k in keys ensures BestKey(keys, t).None? ==> !(k <= t) {
      var j :| 0 <= j < |keys| && keys[j] == k;
    }
    assert BestKey(keys, t).Some? ==> keys[BestKey(keys, t).value] in keys;
  }

  // ----- Texts

  /**
   * However far the rewriting of `t` has gone, it does not go on with `PII` from `j`: neither what stands there
   * nor what it becomes spells the rest.
   */
  ghost predicate Misspells(v: VaultState, t: Bytes, j: nat)
    requires v.Aligned() && j <= 3
    decreases |t|
  {
    && !(PII[j..] <= t)
    && (t == [] ||
        match HeadOf(v, t)
        case Raw => true
        case Literal => t[0] != PII[j] || Misspells(v, t[1..], j + 1)
        case Subst(s, n) => if s <= PII[j..] then Misspells(v, t[n..], j + |s|) else !(PII[j..] <= s))
  }

  /** A stray `<` cannot become the front of a tag. */
  ghost predicate Harmless(v: VaultState, t: Bytes)
    requires v.Aligned() && t != []
  {
    t[0] == LT ==> Misspells(v, t[1..], 0)
  }

  /**
   * Texts the proxy is meant to unmask: tokens are not nested, every complete token is known at
   * levels 1 to 3, at most the last one is incomplete, and any other `<` is harmless.
   */
  ghost predicate Admissible(v: VaultState, t: Bytes)
    requires v.Aligned()
    decreases |t|
  {
    t == [] ||
    match HeadOf(v, t)
    case Raw => Find(t[1..], OPEN).None?
    case Literal => Harmless(v, t) && Admissible(v, t[1..])
    case Subst(_, n) =>
      && (OPEN <= t ==> Lookup(v, t[..n]).Some? && Find(t[1..n], OPEN).None?)
      && Admissible(v, t[n..])
  }

  /** The cut at `n` does not fall inside an opening `<pii`. */
  ghost predicate NoCut(t: Bytes, n: int) {
    forall i :: 0 <= i < n < i + 4 && i <= |t| ==> !(OPEN <= t[i..])
  }

  /** Nothing left to rewrite, except that a token may still be open at the end. */
  ghost predicate Inert(v: VaultState, x: Bytes) {
    if x == [] then true
    else if OPEN <= x then Find(x, CLOSE).None? && Find(x[1..], OPEN).None?
    else NoKey(v, x) && Inert(v, x[1..])
  }

  // ----- Inserted originals are transparent

  /** No key starts inside an inserted original, whatever follows it. */
  lemma NoKeyInOriginal(v: VaultState, o: Bytes, j: nat, y: Bytes)
    requires Apart(v) && o in Restorable(v) && j < |o|
    ensures NoKey(v, o[j..] + y)
  {
    forall k | k in v.syntheticKeys ensures !(k <= o[j..] + y) {
      assert Separate(k, o);
      assert o[0..] == o && k[0..] == k;
      PrefixOfConcat(k, o[j..], y);
    }
  }

  /** No tag starts inside an inserted original. */
  lemma NoTagInOriginal(v: VaultState, o: Bytes, j: nat, y: Bytes)
    requires Apart(v) && o in Restorable(v) && j < |o|
    ensures o[j] != LT && !(OPEN <= o[j..] + y)
  {
    assert (o[j..] + y)[0] == o[j] && o[j] in o;
  }

  /** No key ends inside an inserted original or runs across it. */
  lemma NoKeyTailAtOriginal(v: VaultState, o: Bytes, k: Bytes, j: nat, y: Bytes)
    requires Apart(v) && o in Restorable(v) && k in v.syntheticKeys && j < |k|
    ensures !(k[j..] <= o + y)
  {
    assert Separate(k, o);
    assert o[0..] == o && k[0..] == k;
    PrefixOfConcat(k[j..], o, y);
  }

  /** A byte the scan copies: no tag and no key start there. */
  lemma CopyByte(v: VaultState, t: Bytes)
    requires Apart(v) && t != [] && !(OPEN <= t) && NoKey(v, t)
    ensures HeadOf(v, t) == Literal
    ensures Scan(v, t) == [t[0]] + Scan(v, t[1..])
    ensures Admissible(v, t) <==> Harmless(v, t) && Admissible(v, t[1..])
    ensures Inert(v, t) <==> Inert(v, t[1..])
  {
    NoKeyIsNone(v, t);
  }

  /** Every byte of an inserted original is copied. */
  lemma OriginalByte(v: VaultState, o: Bytes, i: nat, z: Bytes)
    requires Apart(v) && o in Restorable(v) && i < |o|
    ensures var t := o[i..] + z; HeadOf(v, t) == Literal && t[0] == o[i] && t[1..] == o[i + 1..] + z
  {
    hide HeadOf, Scan, Admissible, Inert, NoKey, Apart, Restorable;
    NoKeyInOriginal(v, o, i, z);
    NoTagInOriginal(v, o, i, z);
    CopyByte(v, o[i..] + z);
  }

  lemma ScanLiteral(v: VaultState, t: Bytes)
    requires v.Aligned() && t != [] && HeadOf(v, t) == Literal
    ensures Scan(v, t) == [t[0]] + Scan(v, t[1..])
  {
  }

  /** Rewriting leaves an inserted original alone and goes on behind it. */
  lemma {:induction false} SkipOriginal(v: VaultState, o: Bytes, j: nat, y: Bytes)
    requires Apart(v) && o in Restorable(v) && j <= |o|
    ensures Scan(v, o[j..] + y) == o[j..] + Scan(v, y)
    decreases |o| - j
  {
    assert v.Aligned();
    hide Scan, HeadOf, Apart, Restorable;
    if j == |o| {
      assert o[j..] == [];
      EmptyFront(y);
      EmptyFront(Scan(v, y));
    } else {
      OriginalByte(v, o, j, y);
      ScanLiteral(v, o[j..] + y);
      SkipOriginal(v, o, j + 1, y);
      SuffixCons(o, j);
      Assoc([o[j]], o[j + 1..], Scan(v, y));
    }
  }

  lemma {:induction false} OriginalKeepsShape(v: VaultState, o: Bytes, j: nat, y: Bytes)
    requires Apart(v) && o in Restorable(v) && j <= |o|
    ensures Admissible(v, y) ==> Admissible(v, o[j..] + y)
    ensures Inert(v, y) ==> Inert(v, o[j..] + y)
    decreases |o| - j
  {
    assert v.Aligned();
    hide Scan, HeadOf, Admissible, Inert, NoKey, Sound, Restorable;
    if j == |o| {
      assert o[j..] + y == y;
    } else {
      var t := o[j..] + y;
      NoKeyInOriginal(v, o, j, y);
      NoTagInOriginal(v, o, j, y);
      CopyByte(v, t);
      assert t[0] == o[j] && t[1..] == o[j + 1..] + y;
      OriginalKeepsShape(v, o, j + 1, y);
    }
  }

  /** A substituted text is a known original, or a token of unknown meaning copied as it stands. */
  lemma SubstKinds(v: VaultState, t: Bytes)
    requires Apart(v) && t != [] && HeadOf(v, t).Subst?
    ensures
      var s := HeadOf(v, t).text;
      s in Restorable(v) || (OPEN <= t && Lookup(v, t[..HeadOf(v, t).width]).None? && s != [] && s[0] == LT)
  {
  }

  /** A key tail seen in the rewritten text was already there in the text. */
  lemma {:induction false} KeyTailWasThere(v: VaultState, k: Bytes, j: nat, b: Bytes, c: Bytes)
    requires Apart(v) && k in v.syntheticKeys && j <= |k|
    ensures k[j..] <= Scan(v, b) + c ==> k[j..] <= b + c
    decreases |b|
  {
    if b == [] || j == |k| {
    } else if HeadOf(v, b).Literal? {
      assert Scan(v, b) == [b[0]] + Scan(v, b[1..]);
      hide HeadOf, Scan;
      KeyTailWasThere(v, k, j + 1, b[1..], c);
      KeyTailStep(k, j, b[0], Scan(v, b[1..]) + c);
      KeyTailStep(k, j, b[0], b[1..] + c);
      assert b == [b[0]] + b[1..];
      Assoc([b[0]], b[1..], c);
      Assoc([b[0]], Scan(v, b[1..]), c);
    } else if HeadOf(v, b).Subst? {
      var s, n := HeadOf(v, b).text, HeadOf(v, b).width;
      SubstKinds(v, b);
      Assoc(s, Scan(v, b[n..]), c);
      if s in Restorable(v) {
        NoKeyTailAtOriginal(v, s, k, j, Scan(v, b[n..]) + c);
      } else {
        assert k[j] in k;
      }
    }
  }

  lemma KeyTailStep(k: Bytes, j: nat, x: byte, y: Bytes)
    requires j < |k|
    ensures k[j..] <= [x] + y <==> k[j] == x && k[j + 1..] <= y
  {
    var t := [x] + y;
    assert k[j..] == [k[j]] + k[j + 1..];
    assert t[1..] == y;
    assert k[j..] <= t ==> k[j..][1..] <= t[1..];
  }

  // ----- Rewriting what was already rewritten

  /** Everything the induction keeps: rescanning adds nothing, and the hybrid text stays well shaped. */
  ghost predicate Stable(v: VaultState, x: Bytes, b: Bytes, c: Bytes)
    requires v.Aligned()
  {
    && Scan(v, x + c) == Scan(v, b + c)
    && Admissible(v, x + c)
    && NoCut(x + c, |x|)
    && Inert(v, x)
  }

  lemma NoCutAfterOriginal(o: Bytes, t: Bytes, n: nat)
    requires LT !in o && NoCut(t, n)
    ensures NoCut(o + t, |o| + n)
  {
    forall i | 0 <= i < |o| + n < i + 4 && i <= |o + t| ensures !(OPEN <= (o + t)[i..]) {
      if i < |o| {
        assert (o + t)[i..][0] == o[i];
        assert o[i] in o;
      } else {
        assert (o + t)[i..] == t[i - |o|..];
      }
    }
  }

  lemma StableAfterOriginal(v: VaultState, o: Bytes, x: Bytes, b: Bytes, c: Bytes, w: Bytes)
    requires Apart(v) && o in Restorable(v) && Stable(v, x, b, c)
    requires Scan(v, w + c) == o + Scan(v, b + c)
    ensures Stable(v, o + x, w, c)
  {
    Assoc(o, x, c);
    assert o[0..] == o;
    SkipOriginal(v, o, 0, x + c);
    OriginalKeepsShape(v, o, 0, x + c);
    OriginalKeepsShape(v, o, 0, x);
    NoCutAfterOriginal(o, x + c, |x|);
  }

  /** No key and no tag starts in a part of a key that ends before the key does. */
  lemma NoKeyInPart(v: VaultState, k: Bytes, i: nat, m: nat)
    requires Sound(v) && k in v.syntheticKeys && i < m < |k|
    ensures NoKey(v, k[i..m]) && !(OPEN <= k[i..m])
  {
    hide Restorable, Separate;
    forall q | q in v.syntheticKeys ensures !(q <= k[i..m]) {
      assert !Inside(q, k);
      PrefixOfPart(q, k, i, m);
    }
    assert k[i..m][0] == k[i] && k[i] in k;
  }

  /** Inside a proper part of a key there is nothing to rewrite. */
  lemma {:induction false} KeyPartIsInert(v: VaultState, k: Bytes, i: nat, m: nat)
    requires Sound(v) && k in v.syntheticKeys && i <= m < |k|
    ensures Scan(v, k[i..m]) == k[i..m]
    ensures Inert(v, k[i..m])
    decreases m - i
  {
    if i == m {
      assert k[i..m] == [];
    } else {
      hide Scan, HeadOf, Inert, Admissible, NoKey, Apart, Unnested;
      NoKeyInPart(v, k, i, m);
      CopyByte(v, k[i..m]);
      assert k[i..m] == [k[i]] + k[i + 1..m] && k[i..m][1..] == k[i + 1..m];
      KeyPartIsInert(v, k, i + 1, m);
    }
  }

  lemma NoCutDrop(t: Bytes, m: nat, n: int)
    requires m <= |t| && NoCut(t, n)
    ensures NoCut(t[m..], n - m)
  {
    forall i | 0 <= i < n - m < i + 4 && i <= |t[m..]| ensures !(OPEN <= t[m..][i..]) {
      assert t[m..][i..] == t[m + i..];
    }
  }

  lemma NoCutAfterByte(x: byte, t: Bytes, n: nat)
    requires !(OPEN <= [x] + t) && NoCut(t, n)
    ensures NoCut([x] + t, n + 1)
  {
    var u := [x] + t;
    assert u[0..] == u;
    forall i | 0 <= i < n + 1 < i + 4 && i <= |u| ensures !(OPEN <= u[i..]) {
      if i > 0 { assert u[i..] == t[i - 1..]; }
    }
  }

  lemma AdmissibleToken(v: VaultState, t: Bytes)
    requires v.Aligned() && Admissible(v, t) && OPEN <= t
    ensures Find(t, CLOSE).None? ==> Find(t[1..], OPEN).None?
    ensures Find(t, CLOSE).Some? ==> Find(t[1..Find(t, CLOSE).value + 6], OPEN).None?
  {
  }

  /** A token that the buffer does not close holds no second opening tag. */
  lemma OpenTokenNotNested(b: Bytes, c: Bytes)
    requires OPEN <= b && Find(b, CLOSE).None?
    requires Find(b + c, CLOSE).None? ==> Find((b + c)[1..], OPEN).None?
    requires Find(b + c, CLOSE).Some? ==> Find((b + c)[1..Find(b + c, CLOSE).value + 6], OPEN).None?
    ensures Find(b[1..], OPEN).None?
  {
    hide Find;
    var t, n := b + c, |b| - 1;
    if Find(t, CLOSE).None? {
      assert t[1..][0..n] == b[1..];
      FindNoneInPart(t[1..], OPEN, 0, n);
    } else {
      FindBeyond(b, c, CLOSE);
      var end := Find(t, CLOSE).value + 6;
      assert t[1..end][0..n] == b[1..];
      FindNoneInPart(t[1..end], OPEN, 0, n);
    }
  }

  lemma OpenTokenStable(v: VaultState, b: Bytes, c: Bytes)
    requires Apart(v) && Admissible(v, b + c) && NoCut(b + c, |b|)
    requires OPEN <= b && Find(b, CLOSE).None?
    ensures Stable(v, Scan(v, b), b, c)
  {
    AdmissibleToken(v, b + c);
    OpenTokenNotNested(b, c);
    assert Scan(v, b) == b;
  }

  /** A key that fits in the buffer is the best one there, however the text goes on. */
  lemma BestKeyFits(v: VaultState, b: Bytes, c: Bytes)
    requires Apart(v)
    requires BestKey(v.syntheticKeys, b + c).Some?
    requires |v.syntheticKeys[BestKey(v.syntheticKeys, b + c).value]| <= |b|
    ensures BestKey(v.syntheticKeys, b) == BestKey(v.syntheticKeys, b + c)
  {
    var keys := v.syntheticKeys;
    var k := keys[BestKey(keys, b + c).value];
    BestKeyCut(keys, b, c);
  }

  /** A substitution made on the buffer is the one made on the whole text. */
  lemma SubstStable(v: VaultState, b: Bytes, c: Bytes)
    requires Apart(v) && b != [] && NoCut(b + c, |b|) && Admissible(v, b + c)
    ensures
      var h := HeadOf(v, b + c);
      || (h.Subst? && h.width <= |b| && HeadOf(v, b) == h && h.text in Restorable(v))
      || (OPEN <= b && Find(b, CLOSE).None?)
      || (h.Subst? && h.width > |b| && exists k :: k in v.syntheticKeys && b < k)
      || (h.Literal? && !(OPEN <= b + c) && NoKey(v, b + c))
  {
    hide HeadOf, Find, NoKey, Admissible, Restorable;
    if OPEN <= b + c {
      TagInBuffer(b, c);
      if Find(b, CLOSE).Some? { TokenStable(v, b, c); }
    } else {
      KeyStable(v, b, c);
    }
  }

  lemma TagInBuffer(b: Bytes, c: Bytes)
    requires b != [] && NoCut(b + c, |b|) && OPEN <= b + c
    ensures OPEN <= b
  {
    assert (b + c)[0..] == b + c;
  }

  /** A token closed in the buffer is the same token in the whole text. */
  lemma TokenStable(v: VaultState, b: Bytes, c: Bytes)
    requires Apart(v) && OPEN <= b && Find(b, CLOSE).Some? && OPEN <= b + c && Admissible(v, b + c)
    ensures var h := HeadOf(v, b + c); h.Subst? && h.width <= |b| && HeadOf(v, b) == h && h.text in Restorable(v)
  {
    hide Find, Separate;
    FindStable(b, c, CLOSE);
    var n := Find(b, CLOSE).value + 6;
    assert (b + c)[..n] == b[..n];
  }

  /** Without a tag in front, a key that fits in the buffer is the one found in the whole text. */
  lemma KeyStable(v: VaultState, b: Bytes, c: Bytes)
    requires Apart(v) && b != [] && !(OPEN <= b + c)
    ensures
      var h := HeadOf(v, b + c);
      || (h.Subst? && h.width <= |b| && HeadOf(v, b) == h && h.text in Restorable(v))
      || (h.Subst? && h.width > |b| && exists k :: k in v.syntheticKeys && b < k)
      || (h.Literal? && NoKey(v, b + c))
  {
    var t, keys := b + c, v.syntheticKeys;
    PrefixOfConcat(OPEN, b, c);
    NoKeyIsNone(v, t);
    hide Find, Separate, Lookup, BestKey;
    match BestKey(keys, t)
    case None =>
    case Some(i) =>
      assert keys[i] in keys && v.originalValues[i] in v.originalValues;
      if |keys[i]| <= |b| {
        BestKeyFits(v, b, c);
      } else {
        PrefixOfConcat(keys[i], b, c);
        assert b < keys[i];
      }
  }

  /** A literal byte in front of rewritten text forms no new key. */
  lemma NoNewKey(v: VaultState, x: byte, b: Bytes, c: Bytes)
    requires Apart(v)
    ensures NoKey(v, [x] + (b + c)) ==> NoKey(v, [x] + (Scan(v, b) + c))
    ensures NoKey(v, b + c) ==> NoKey(v, Scan(v, b) + c)
  {
    forall k | k in v.syntheticKeys
      ensures k <= [x] + (Scan(v, b) + c) ==> k <= [x] + (b + c)
      ensures k <= Scan(v, b) + c ==> k <= b + c
    {
      assert k[0..] == k;
      KeyTailWasThere(v, k, 0, b, c);
      KeyTailWasThere(v, k, 1, b, c);
      KeyTailStep(k, 0, x, b + c);
      KeyTailStep(k, 0, x, Scan(v, b) + c);
    }
  }

  lemma StableAfterLiteral(v: VaultState, x: byte, b: Bytes, c: Bytes)
    requires Apart(v)
    requires var t := [x] + (b + c); !(OPEN <= t) && NoKey(v, t)
    requires x == LT ==> Misspells(v, Scan(v, b) + c, 0)
    requires Stable(v, Scan(v, b), b, c)
    ensures Stable(v, [x] + Scan(v, b), [x] + b, c)
  {
    var y := Scan(v, b);
    var t, u := [x] + (b + c), [x] + (y + c);
    Assoc([x], b, c);
    Assoc([x], y, c);
    NoNewKey(v, x, b, c);
    assert t[1..] == b + c && u[1..] == y + c && ([x] + y)[1..] == y;
    NoTagAfter(v, x, y + c);
    hide Misspells, HeadOf, Restorable, Separate;
    CopyByte(v, t);
    CopyByte(v, u);
    forall k | k in v.syntheticKeys ensures !(k <= [x] + y) {
      PrefixOfConcat(k, [x] + y, c);
    }
    PrefixOfConcat(OPEN, [x] + y, c);
    CopyByte(v, [x] + y);
    NoCutAfterByte(x, y + c, |y|);
  }

  /** A byte forms no tag with what misspells it. */
  lemma NoTagAfter(v: VaultState, x: byte, z: Bytes)
    requires v.Aligned() && (x == LT ==> Misspells(v, z, 0))
    ensures !(OPEN <= [x] + z)
  {
    assert OPEN == [LT] + PII && PII[0..] == PII;
    assert OPEN[1..] == PII && OPEN[0..] == OPEN;
    KeyTailStep(OPEN, 0, x, z);
  }

  lemma LiteralInBuffer(v: VaultState, b: Bytes, c: Bytes)
    requires Apart(v) && b != [] && !(OPEN <= b + c) && NoKey(v, b + c)
    ensures Scan(v, b) == [b[0]] + Scan(v, b[1..])
  {
    forall k | k in v.syntheticKeys ensures !(k <= b) {
      PrefixOfConcat(k, b, c);
    }
    CopyByte(v, b);
  }

  lemma LiteralStable(v: VaultState, b: Bytes, c: Bytes)
    requires Sound(v) && b != [] && Admissible(v, b + c) && NoCut(b[1..] + c, |b| - 1)
    requires !(OPEN <= b + c) && NoKey(v, b + c)
    requires Stable(v, Scan(v, b[1..]), b[1..], c)
    ensures Stable(v, Scan(v, b), b, c)
  {
    hide HeadOf, Scan, Admissible, NoKey, Stable, Inert, Misspells, NoCut;
    assert b + c == [b[0]] + (b[1..] + c) && b == [b[0]] + b[1..];
    assert (b + c)[1..] == b[1..] + c;
    CopyByte(v, b + c);
    LiteralInBuffer(v, b, c);
    if b[0] == LT { MisspellsKept(v, b[1..], c, 0); }
    StableAfterLiteral(v, b[0], b[1..], c);
  }

  // ----- A stray `<` stays harmless

  lemma MisspellsLiteral(v: VaultState, t: Bytes, j: nat)
    requires v.Aligned() && t != [] && HeadOf(v, t) == Literal && j <= 3
    ensures Misspells(v, t, j) <==> j < 3 && (t[0] != PII[j] || Misspells(v, t[1..], j + 1))
  {
    assert t == [t[0]] + t[1..];
    if j < 3 { KeyTailStep(PII, j, t[0], t[1..]); }
  }

  /** Comparing two strings from given places: a step past an equal byte. */
  lemma CompareStep(a: Bytes, i: nat, b: Bytes, j: nat)
    requires i < |a| && j < |b| && a[i] == b[j]
    ensures a[i..] <= b[j..] <==> a[i + 1..] <= b[j + 1..]
  {
    assert b[j..] == [b[j]] + b[j + 1..];
    KeyTailStep(a, i, b[j], b[j + 1..]);
  }

  /** An inserted original is read byte by byte. */
  lemma {:induction false} MisspellsOriginal(v: VaultState, o: Bytes, i: nat, z: Bytes, j: nat)
    requires Apart(v) && o in Restorable(v) && i <= |o| && j <= 3
    requires if o[i..] <= PII[j..] then Misspells(v, z, j + |o| - i) else !(PII[j..] <= o[i..])
    ensures Misspells(v, o[i..] + z, j)
    decreases |o| - i
  {
    assert v.Aligned();
    hide Misspells, HeadOf, Apart, Restorable;
    if i == |o| {
      assert o[i..] == [] && o[i..] + z == z;
    } else {
      OriginalByte(v, o, i, z);
      MisspellsLiteral(v, o[i..] + z, j);
      assert j < 3;
      hide PII;
      if o[i] == PII[j] {
        CompareStep(PII, j, o, i);
        CompareStep(o, i, PII, j);
        MisspellsOriginal(v, o, i + 1, z, j + 1);
      }
    }
  }

  /** Rewriting a first part keeps the misspelling. */
  lemma {:induction false} MisspellsKept(v: VaultState, b: Bytes, c: Bytes, j: nat)
    requires Sound(v) && Admissible(v, b + c) && NoCut(b + c, |b|) && j <= 3 && Misspells(v, b + c, j)
    ensures Misspells(v, Scan(v, b) + c, j)
    decreases |b|, 1
  {
    assert v.Aligned();
    hide HeadOf, Scan, Admissible, NoCut, Restorable, Find, NoKey, Misspells, Apart, Unnested;
    if b == [] { ScanOfNothing(v); return; }
    var h := HeadOf(v, b + c);
    SubstStable(v, b, c);
    AdmissibleTail(v, b + c);
    if OPEN <= b && Find(b, CLOSE).None? {
      ScanOfOpenToken(v, b);
    } else if h.Literal? {
      DropConcat(b, c, 1);
      NoCutDrop(b + c, 1, |b|);
      MisspellsKeptAtLiteral(v, b, c, j);
    } else if h.width <= |b| {
      DropConcat(b, c, h.width);
      NoCutDrop(b + c, h.width, |b|);
      MisspellsKeptAtSubst(v, b, c, h.text, h.width, j);
    } else {
      var k :| k in v.syntheticKeys && b < k;
      KeyFrontIsInert(v, k, b);
    }
  }

  lemma KeyFrontIsInert(v: VaultState, k: Bytes, b: Bytes)
    requires Sound(v) && k in v.syntheticKeys && b < k
    ensures Scan(v, b) == b && Inert(v, b)
  {
    assert b == k[0..|b|];
    KeyPartIsInert(v, k, 0, |b|);
  }

  /** A literal byte in front of rewritten text is a literal byte still. */
  lemma LiteralKept(v: VaultState, x: byte, b: Bytes, c: Bytes)
    requires Apart(v) && NoKey(v, [x] + (b + c)) && (x == LT ==> Misspells(v, Scan(v, b) + c, 0))
    ensures var u := [x] + (Scan(v, b) + c); NoKey(v, u) && !(OPEN <= u) && HeadOf(v, u) == Literal
  {
    hide HeadOf, Scan, NoKey, Misspells, Apart, Admissible, Inert;
    assert v.Aligned() by { ApartIsAligned(v); }
    NoTagAfter(v, x, Scan(v, b) + c);
    NoNewKey(v, x, b, c);
    CopyByte(v, [x] + (Scan(v, b) + c));
  }

  lemma ApartIsAligned(v: VaultState)
    requires Apart(v)
    ensures v.Aligned()
  {
  }

  lemma {:induction false} MisspellsKeptAtLiteral(v: VaultState, b: Bytes, c: Bytes, j: nat)
    requires Sound(v) && b != [] && j <= 3 && Misspells(v, b + c, j)
    requires Admissible(v, b + c) && Admissible(v, b[1..] + c) && NoCut(b[1..] + c, |b| - 1)
    requires !(OPEN <= b + c) && NoKey(v, b + c)
    ensures Misspells(v, Scan(v, b) + c, j)
    decreases |b|, 0
  {
    assert v.Aligned();
    hide HeadOf, Scan, Admissible, NoCut, NoKey, Misspells, Apart, Unnested, Inert, Find;
    var x, y := b[0], Scan(v, b[1..]);
    HeadTail(b, c);
    CopyByte(v, b + c);
    MisspellsLiteral(v, b + c, j);
    LiteralInBuffer(v, b, c);
    Assoc([x], y, c);
    if x == LT { MisspellsKept(v, b[1..], c, 0); }
    LiteralKept(v, x, b[1..], c);
    HeadTail([x], y + c);
    MisspellsLiteral(v, [x] + (y + c), j);
    if x == PII[j] { MisspellsKept(v, b[1..], c, j + 1); }
  }

  lemma {:induction false} MisspellsKeptAtSubst(v: VaultState, b: Bytes, c: Bytes, s: Bytes, n: nat, j: nat)
    requires Sound(v) && b != [] && 0 < n <= |b| && s in Restorable(v) && j <= 3 && Misspells(v, b + c, j)
    requires HeadOf(v, b) == HeadOf(v, b + c) == Subst(s, n)
    requires Admissible(v, b[n..] + c) && NoCut(b[n..] + c, |b| - n)
    ensures Misspells(v, Scan(v, b) + c, j)
    decreases |b|, 0
  {
    assert v.Aligned() && |PII| == 3;
    hide PII, OPEN, CLOSE, HeadOf, Scan, Admissible, NoCut, Restorable, Find, NoKey, Misspells, Apart, Unnested;
    var y := Scan(v, b[n..]);
    MisspellsSubst(v, b + c, j);
    DropConcat(b, c, n);
    ScanSubst(v, b, s, n);
    Assoc(s, y, c);
    assert s[0..] == s;
    if s <= PII[j..] { MisspellsKept(v, b[n..], c, j + |s|); }
    MisspellsOriginal(v, s, 0, y + c, j);
  }

  lemma MisspellsSubst(v: VaultState, t: Bytes, j: nat)
    requires v.Aligned() && t != [] && HeadOf(v, t).Subst? && j <= 3 && Misspells(v, t, j)
    ensures
      var h := HeadOf(v, t);
      if h.text <= PII[j..] then Misspells(v, t[h.width..], j + |h.text|) else !(PII[j..] <= h.text)
  {
  }

  lemma ScanOfNothing(v: VaultState)
    requires v.Aligned()
    ensures Scan(v, []) == []
  {
  }

  lemma ScanOfOpenToken(v: VaultState, b: Bytes)
    requires v.Aligned() && OPEN <= b && Find(b, CLOSE).None?
    ensures Scan(v, b) == b
  {
  }

  /** A paragraph tag is harmless, wherever no key starts in it. */
  lemma ParagraphIsHarmless(v: VaultState, y: Bytes)
    requires Apart(v) && NoKey(v, [112, 62] + y) && NoKey(v, [62] + y)
    ensures Harmless(v, [LT, 112, 62] + y)
  {
    var p, q := [112, 62] + y, [62] + y;
    assert p[0] == 112 && q[0] == 62 && p[1..] == q && ([LT, 112, 62] + y)[1..] == p;
    assert v.Aligned() && PII[1] == 105;
    hide Misspells, HeadOf, NoKey, Apart, Scan, Inert, Admissible;
    CopyByte(v, p);
    CopyByte(v, q);
    MisspellsLiteral(v, p, 0);
    MisspellsLiteral(v, q, 1);
  }

  // ----- The induction

  lemma ScanSubst(v: VaultState, t: Bytes, s: Bytes, n: nat)
    requires v.Aligned() && t != [] && HeadOf(v, t) == Subst(s, n)
    ensures Scan(v, t) == s + Scan(v, t[n..])
  {
  }

  lemma SubstitutedStable(v: VaultState, b: Bytes, c: Bytes, s: Bytes, n: nat)
    requires Apart(v) && b != [] && 0 < n <= |b| && s in Restorable(v)
    requires HeadOf(v, b) == HeadOf(v, b + c) == Subst(s, n)
    requires Stable(v, Scan(v, b[n..]), b[n..], c)
    ensures Stable(v, Scan(v, b), b, c)
  {
    hide HeadOf, Scan, Stable, Restorable;
    assert (b + c)[n..] == b[n..] + c;
    ScanSubst(v, b, s, n);
    ScanSubst(v, b + c, s, n);
    StableAfterOriginal(v, s, Scan(v, b[n..]), b[n..], c, b);
  }

  lemma KeyPartStable(v: VaultState, b: Bytes, c: Bytes, k: Bytes)
    requires Sound(v) && Admissible(v, b + c) && NoCut(b + c, |b|)
    requires k in v.syntheticKeys && b < k
    ensures Stable(v, Scan(v, b), b, c)
  {
    KeyFrontIsInert(v, k, b);
  }

  lemma AdmissibleTail(v: VaultState, t: Bytes)
    requires v.Aligned() && t != [] && Admissible(v, t)
    ensures HeadOf(v, t).Literal? ==> Admissible(v, t[1..])
    ensures HeadOf(v, t).Subst? ==> Admissible(v, t[HeadOf(v, t).width..])
  {
  }

  lemma EmptyStable(v: VaultState, c: Bytes)
    requires v.Aligned() && Admissible(v, [] + c) && NoCut([] + c, 0)
    ensures Stable(v, Scan(v, []), [], c)
  {
    assert [] + c == c;
  }

  /**
   * Rewriting is stable: for an admissible text cut anywhere but inside a `<pii`, rewriting the first part
   * and then the whole again gives the same as rewriting the whole once, and leaves nothing else to rewrite
   * in the first part.
   */
  lemma {:induction false} RescanStable(v: VaultState, b: Bytes, c: Bytes)
    requires Sound(v) && Admissible(v, b + c) && NoCut(b + c, |b|)
    ensures Stable(v, Scan(v, b), b, c)
    decreases |b|
  {
    hide HeadOf, Scan, Stable, Admissible, NoCut, Restorable, Find, NoKey;
    if b == [] { EmptyStable(v, c); return; }
    var t, h := b + c, HeadOf(v, b + c);
    SubstStable(v, b, c);
    AdmissibleTail(v, t);
    if OPEN <= b && Find(b, CLOSE).None? {
      OpenTokenStable(v, b, c);
    } else if h.Literal? {
      assert t[1..] == b[1..] + c;
      NoCutDrop(t, 1, |b|);
      RescanStable(v, b[1..], c);
      LiteralStable(v, b, c);
    } else if h.width <= |b| {
      assert t[h.width..] == b[h.width..] + c;
      NoCutDrop(t, h.width, |b|);
      RescanStable(v, b[h.width..], c);
      SubstitutedStable(v, b, c, h.text, h.width);
    } else {
      var k :| k in v.syntheticKeys && b < k;
      KeyPartStable(v, b, c, k);
    }
  }
}
