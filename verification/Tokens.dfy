/** What the extractors read from a token, and what the levels of the cascade make of it. */
module Tokens {
  import opened Bytes
  import opened Vault
  import opened Unmask

  const QUOTE: byte := 34
  const GT: byte := 62

  /** The text of a token, and what the cascade looks for in it. */
  lemma TokenText(id: Bytes, d: Bytes)
    ensures XmlToken(id, d) == Spelt("<pii id=\"") + id + Spelt("\">") + d + Spelt("</pii>")
    ensures OPEN == Spelt("<pii") && PII == Spelt("pii") && ID == Spelt("id")
  {
    assert TOKEN_HEAD == Spelt("<pii id=\"") && TOKEN_MID == Spelt("\">") && CLOSE == Spelt("</pii>");
  }

  /** A token id that ends neither the attribute nor the opening tag; every generated id is one. */
  predicate PlainId(id: Bytes) {
    QUOTE !in id && GT !in id
  }

  /** The attribute is found where the token's head ends. */
  lemma HeadAt(y: Bytes)
    ensures Find(TOKEN_HEAD + y, ID + [61, 34]) == Some(5)
  {
    hide Find;
    var t, w := TOKEN_HEAD + y, ID + [61, 34];
    assert t[5..] == w + y;
    forall j | 0 <= j < 5 ensures !(w <= t[j..]) {
      assert t[j..][0] == t[j] && t[j..][1] == t[j + 1];
    }
    FindIs(t, w, 5);
  }

  lemma Regrouped(id: Bytes, d: Bytes)
    ensures XmlToken(id, d) == TOKEN_HEAD + (id + ([QUOTE] + ([GT] + (d + CLOSE))))
    ensures XmlToken(id, d) == (TOKEN_HEAD + id + [QUOTE]) + ([GT] + (d + CLOSE))
    ensures XmlToken(id, d) == ((TOKEN_HEAD + id + [QUOTE]) + [GT] + d) + CLOSE
  {
  }

  lemma TokenHasId(id: Bytes, d: Bytes)
    requires PlainId(id)
    ensures ExtractAttr(XmlToken(id, d), ID) == Some(id)
  {
    hide Find;
    var y := [GT] + (d + CLOSE);
    Regrouped(id, d);
    HeadAt(id + ([QUOTE] + y));
    SingleAt(id, QUOTE, y);
    assert (TOKEN_HEAD + (id + ([QUOTE] + y)))[9..] == id + ([QUOTE] + y);
  }

  lemma TailIsLast(u: Bytes)
    ensures FindLast(u + CLOSE, [60, 47]) == Some(|u|)
  {
    hide FindLast;
    var t := u + CLOSE;
    assert t[|u|..] == CLOSE;
    forall j | |u| < j <= |t| ensures !([60, 47] <= t[j..]) {
      assert j < |t| ==> t[j..][0] == CLOSE[j - |u|];
    }
  }

  lemma NoGtInHead(id: Bytes)
    requires PlainId(id)
    ensures GT !in TOKEN_HEAD + id + [QUOTE]
  {
  }

  lemma InnerPart(head: Bytes, d: Bytes, tail: Bytes)
    ensures |head + [GT] + d| == |head| + 1 + |d|
    ensures ((head + [GT] + d) + tail)[|head| + 1..|head| + 1 + |d|] == d
  {
  }

  lemma TokenHasDisplay(id: Bytes, d: Bytes)
    requires PlainId(id)
    ensures ExtractInner(XmlToken(id, d)) == Some(d)
  {
    hide Find, FindLast, XmlToken;
    Regrouped(id, d);
    var head := TOKEN_HEAD + id + [QUOTE];
    NoGtInHead(id);
    SingleAt(head, GT, d + CLOSE);
    TailIsLast(head + [GT] + d);
    InnerPart(head, d, CLOSE);
  }

  /** The token is cut around the value of the first such attribute, which ends at the next quote. */
  ghost predicate AttrCut(token: Bytes, attr: Bytes, a: Bytes, value: Bytes, b: Bytes) {
    var search := attr + [61, QUOTE];
    token == a + (search + (value + ([QUOTE] + b))) && Find(token, search) == Some(|a|) && QUOTE !in value
  }

  lemma AttrIff(token: Bytes, attr: Bytes, value: Bytes)
    ensures ExtractAttr(token, attr) == Some(value) <==> exists a, b :: AttrCut(token, attr, a, value, b)
  {
    hide Find;
    var search := attr + [61, QUOTE];
    forall a, b | AttrCut(token, attr, a, value, b) ensures ExtractAttr(token, attr) == Some(value) {
      assert token[|a| + |search|..] == value + ([QUOTE] + b);
      SingleAt(value, QUOTE, b);
    }
    if ExtractAttr(token, attr) == Some(value) {
      var p := Find(token, search).value;
      var rest := token[p + |search|..];
      QuoteBehind(rest, value);
      assert AttrCut(token, attr, token[..p], value, rest[|value| + 1..]) by {
        assert token[p..][..|search|] == search && token[p..][|search|..] == rest;
        assert token == token[..p] + (search + rest);
      }
    }
  }

  lemma QuoteBehind(rest: Bytes, value: Bytes)
    requires Find(rest, [QUOTE]) == Some(|value|) && rest[..|value|] == value
    ensures rest == value + ([QUOTE] + rest[|value| + 1..]) && QUOTE !in value
  {
    FoundByte(rest, QUOTE);
  }

  /** The token is cut around what stands between its first `>` and its last `</`. */
  ghost predicate InnerCut(token: Bytes, a: Bytes, d: Bytes, b: Bytes) {
    && token == a + ([GT] + (d + ([60, 47] + b)))
    && Find(token, [GT]) == Some(|a|) && FindLast(token, [60, 47]) == Some(|a| + 1 + |d|)
  }

  lemma InnerIff(token: Bytes, d: Bytes)
    ensures ExtractInner(token) == Some(d) <==> exists a, b :: InnerCut(token, a, d, b)
  {
    hide Find, FindLast;
    forall a, b | InnerCut(token, a, d, b) ensures ExtractInner(token) == Some(d) {
      assert token[|a| + 1..|a| + 1 + |d|] == d;
    }
    if ExtractInner(token) == Some(d) {
      var gt, close := Find(token, [GT]).value, FindLast(token, [60, 47]).value;
      CutAround(token, gt, close);
      assert InnerCut(token, token[..gt], d, token[close + 2..]);
    }
  }

  lemma CutAround(token: Bytes, gt: nat, close: nat)
    requires gt < close <= |token| && [GT] <= token[gt..] && [60, 47] <= token[close..]
    ensures close + 2 <= |token|
    ensures token == token[..gt] + ([GT] + (token[gt + 1..close] + ([60, 47] + token[close + 2..])))
  {
    assert token[gt..][0] == GT && token[close..][0] == 60 && token[close..][1] == 47;
    assert token[close..] == [60, 47] + token[close + 2..];
    assert token[gt..] == [GT] + token[gt + 1..] && token[gt + 1..] == token[gt + 1..close] + token[close..];
  }

  /** Without an id a token is only known as it stands: its display is not looked up. */
  lemma NoIdNoDisplay(v: VaultState, token: Bytes)
    requires Find(token, Spelt("id=\"")).None?
    ensures Resolve(v, token) == if token in v.fullTokens then v.fullTokens[token] else token
  {
    hide Find;
    assert Spelt("id=\"") == ID + [61, 34];
  }

  /** Levels 1 to 3 on a written token: the token itself, then its id, then its display. */
  lemma LevelsOfToken(v: VaultState, id: Bytes, d: Bytes)
    requires PlainId(id)
    ensures
      var token := XmlToken(id, d);
      Lookup(v, token) ==
      if token in v.fullTokens then Some(v.fullTokens[token])
      else if id in v.tokenIdIndex then Some(v.tokenIdIndex[id])
      else if d in v.displays then Some(v.displays[d])
      else None
  {
    hide ExtractAttr, ExtractInner, XmlToken;
    TokenHasId(id, d);
    TokenHasDisplay(id, d);
  }

  /** A token whose display was altered on the way is restored by its id. */
  lemma AlteredDisplayIsRestored(v: VaultState, e: Entry, d: Bytes)
    requires PlainId(e.tokenId)
    ensures
      var w := AddWithToken(v, e);
      XmlToken(e.tokenId, d) !in w.fullTokens ==> Lookup(w, XmlToken(e.tokenId, d)) == Some(e.original)
  {
    hide Lookup, InsertNew;
    LevelsOfToken(AddWithToken(v, e), e.tokenId, d);
  }

  /** A token whose id was altered to an unknown one is restored by its display. */
  lemma AlteredIdIsRestored(v: VaultState, e: Entry, id: Bytes)
    requires PlainId(id)
    ensures
      var w := AddWithToken(v, e);
      XmlToken(id, e.synthetic) !in w.fullTokens && id !in w.tokenIdIndex
      ==> Lookup(w, XmlToken(id, e.synthetic)) == Some(e.original)
  {
    hide Lookup, InsertNew;
    LevelsOfToken(AddWithToken(v, e), id, e.synthetic);
  }
}
