/** The unmasking rewrite: token cascade, longest-key replacement, and the single scanner they amount to. */
module Unmask {
  import opened Bytes
  import opened Vault

  const OPEN: Bytes := [60, 112, 105, 105]           // "<pii"
  const PII: Bytes := [112, 105, 105]                // "pii"

  // ----- Levels 1 to 4: complete tokens

  /** The value of `attr="value"` in a token. */
  function ExtractAttr(token: Bytes, attr: Bytes): Option<Bytes> {
    var search := attr + [61, 34];
    match Find(token, search)
    case None => None
    case Some(p) =>
      var rest := token[p + |search|..];
      match Find(rest, [34])
      case None => None
      case Some(e) => Some(rest[..e])
  }

  /** Offset of the last occurrence of `w`. */
  function FindLast(t: Bytes, w: Bytes, n: nat := |t|): (r: Option<nat>)
    requires n <= |t|
    ensures r.Some? ==> r.value <= n && w <= t[r.value..]
    ensures r.Some? ==> forall j :: r.value < j <= n ==> !(w <= t[j..])
    ensures r.None? ==> forall j :: 0 <= j <= n ==> !(w <= t[j..])
  {
    if w <= t[n..] then Some(n)
    else if n == 0 then None
    else FindLast(t, w, n - 1)
  }

  function ExtractInner(token: Bytes): Option<Bytes> {
    match Find(token, [62])
    case None => None
    case Some(gt) =>
      match FindLast(token, [60, 47])
      case None => None
      case Some(close) => if close < gt + 1 then None else Some(token[gt + 1..close])
  }

  const ID: Bytes := [105, 100]

  /** Levels 1 to 3 of the cascade. */
  function Lookup(v: VaultState, token: Bytes): (r: Option<Bytes>)
    ensures r.Some? ==> r.value in v.fullTokens.Values + v.tokenIdIndex.Values + v.displays.Values
  {
    if token in v.fullTokens then Some(v.fullTokens[token])
    else
      match ExtractAttr(token, ID)
      case None => None
      case Some(id) =>
        if id in v.tokenIdIndex then Some(v.tokenIdIndex[id])
        else
          match ExtractInner(token)
          case None => None
          case Some(d) => if d in v.displays then Some(v.displays[d]) else None
  }

  /** Level 4 passes an unknown token through. */
  function Resolve(v: VaultState, token: Bytes): Bytes {
    match Lookup(v, token)
    case Some(o) => o
    case None => token
  }

  /** The cascade over a whole text: plain stretches go through `Replace`, tokens through `Resolve`. */
  function Cascade(v: VaultState, t: Bytes): Bytes
    requires v.Aligned()
    decreases |t|, 1
  {
    match Find(t, OPEN)
    case None => Replace(v, t)
    case Some(p) => Replace(v, t[..p]) + CascadeTag(v, t[p..])
  }

  /** The cascade from an opening tag on; a token without its closing tag stays as it is. */
  function CascadeTag(v: VaultState, t: Bytes): Bytes
    requires v.Aligned() && OPEN <= t
    decreases |t|, 0
  {
    match Find(t, CLOSE)
    case None => t
    case Some(q) => Resolve(v, t[..q + 6]) + Cascade(v, t[q + 6..])
  }

  // ----- One scanner for both

  /** What stands at the front of a nonempty text: something to substitute, an unclosed token, or a literal byte. */
  datatype Head = Subst(text: Bytes, width: nat) | Raw | Literal

  function HeadOf(v: VaultState, t: Bytes): (h: Head)
    requires v.Aligned() && t != []
    ensures h.Subst? ==> 0 < h.width <= |t|
  {
    if OPEN <= t then
      match Find(t, CLOSE)
      case None => Raw
      case Some(q) => Subst(Resolve(v, t[..q + 6]), q + 6)
    else
      match BestKey(v.syntheticKeys, t)
      case None => Literal
      case Some(i) => Subst(v.originalValues[i], |v.syntheticKeys[i]|)
  }

  function Scan(v: VaultState, t: Bytes): Bytes
    requires v.Aligned()
    decreases |t|
  {
    if t == [] then []
    else
      match HeadOf(v, t)
      case Raw => t
      case Literal => [t[0]] + Scan(v, t[1..])
      case Subst(s, n) => s + Scan(v, t[n..])
  }

  /** No key holds the byte that opens a tag. */
  ghost predicate KeysAvoidTags(v: VaultState) {
    forall k :: k in v.syntheticKeys ==> LT !in k
  }

  /** Before a `<`, the best key never reaches it. */
  lemma BestKeyBeforeTag(v: VaultState, u: Bytes, y: Bytes)
    requires v.Aligned() && KeysAvoidTags(v)
    requires y == [] || y[0] == LT
    ensures BestKey(v.syntheticKeys, u + y) == BestKey(v.syntheticKeys, u)
  {
    var t, keys := u + y, v.syntheticKeys;
    forall j | 0 <= j < |keys| && keys[j] <= t ensures |keys[j]| <= |u| {
      PrefixOfConcat(keys[j], u, y);
      assert keys[j] in keys;
    }
    BestKeyCut(keys, u, y);
  }

  /** How far the scan moves at the front of a text without a tag there. */
  function Stride(v: VaultState, t: Bytes): (n: nat)
    requires t != []
    ensures 0 < n <= |t|
  {
    var r := BestKey(v.syntheticKeys, t);
    if r.None? then 1 else |v.syntheticKeys[r.value]|
  }

  /** What the scan writes for that stride. */
  function Emit(v: VaultState, t: Bytes): Bytes
    requires t != [] && v.Aligned()
  {
    var r := BestKey(v.syntheticKeys, t);
    if r.None? then [t[0]] else v.originalValues[r.value]
  }

  lemma ScanPlain(v: VaultState, t: Bytes)
    requires v.Aligned() && t != [] && !(OPEN <= t)
    ensures Scan(v, t) == Emit(v, t) + Scan(v, t[Stride(v, t)..])
  {
  }

  /** A stretch before a `<` is rewritten by itself. */
  lemma {:induction false} PlainStretch(v: VaultState, u: Bytes, y: Bytes)
    requires v.Aligned() && KeysAvoidTags(v)
    requires y == [] || y[0] == LT
    requires forall j :: 0 <= j < |u| ==> !(OPEN <= (u + y)[j..])
    ensures Scan(v, u + y) == Replace(v, u) + Scan(v, y)
    decreases |u|
  {
    var t := u + y;
    if u == [] {
      assert t == y;
    } else {
      assert t[0..] == t;
      BestKeyBeforeTag(v, u, y);
      var n := Stride(v, u);
      var rest := u[n..];
      assert t[n..] == rest + y;
      ScanPlain(v, t);
      forall j | 0 <= j < |rest| ensures !(OPEN <= (rest + y)[j..]) {
        assert (rest + y)[j..] == t[n + j..];
      }
      PlainStretch(v, rest, y);
      assert Replace(v, u) == Emit(v, u) + Replace(v, rest);
      Assoc(Emit(v, u), Replace(v, rest), Scan(v, y));
    }
  }

  /** With keys that avoid `<`, the segment-wise cascade is the single scan. */
  lemma {:induction false} CascadeIsScan(v: VaultState, t: Bytes)
    requires v.Aligned() && KeysAvoidTags(v)
    ensures Cascade(v, t) == Scan(v, t)
    decreases |t|, 1
  {
    match Find(t, OPEN)
    case None =>
      assert t + [] == t;
      PlainStretch(v, t, []);
    case Some(p) =>
      assert t[..p] + t[p..] == t;
      PlainStretch(v, t[..p], t[p..]);
      CascadeTagIsScan(v, t[p..]);
  }

  lemma {:induction false} CascadeTagIsScan(v: VaultState, t: Bytes)
    requires v.Aligned() && KeysAvoidTags(v) && OPEN <= t
    ensures CascadeTag(v, t) == Scan(v, t)
    decreases |t|, 0
  {
    match Find(t, CLOSE)
    case None =>
    case Some(q) => CascadeIsScan(v, t[q + 6..]);
  }
}
