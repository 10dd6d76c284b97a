/** Masking a text span by span, token ids, and the vault it writes to. */
module Masking {
  import opened Bytes
  import opened Vault
  import opened VaultStore
  import opened Tokens

  datatype Span = Span(start: nat, end: nat, kind: Bytes, confidence: real, tier: byte)

  /** What the model does not look into: the synthetic generator and the hash behind token ids. */
  datatype Sources = Sources(generate: (nat, Bytes, Bytes) -> Bytes, hash: nat -> nat)

  // ----- Token ids

  /** The alphabet `0-9A-Za-z`. */
  function Base62Char(d: nat): byte
    requires d < 62
  {
    if d < 10 then 48 + d else if d < 36 then 65 + (d - 10) else 97 + (d - 36)
  }

  /** The last `n` base-62 digits of a value; none of them is a byte of tag syntax. */
  function Base62Digits(val: nat, n: nat): (s: Bytes)
    ensures |s| == n && LT !in s && PlainId(s)
  {
    if n == 0 then [] else Base62Digits(val / 62, n - 1) + [Base62Char(val % 62)]
  }

  /** What a character of an id counts: digits, then upper-case, then lower-case letters. */
  function Base62Value(b: byte): int {
    if '0' as int <= b <= '9' as int then b - '0' as int
    else if 'A' as int <= b <= 'Z' as int then 10 + b - 'A' as int
    else 36 + b - 'a' as int
  }

  /** An id read as a number, its first digit weighing most. */
  function ReadId(s: Bytes): int {
    if s == [] then 0 else 62 * ReadId(s[..|s| - 1]) + Base62Value(s[|s| - 1])
  }

  lemma CharReadsBack(d: nat)
    requires d < 62
    ensures Base62Value(Base62Char(d)) == d
  {
  }

  function Times(k: int, m: int): int {
    k * m
  }

  function Pow62(n: nat): nat {
    if n == 0 then 1 else 62 * Pow62(n - 1)
  }

  /** The values differ by a multiple of `m`. */
  ghost predicate Congruent(a: nat, b: nat, m: nat) {
    exists k :: a - b == Times(k, m)
  }

  lemma CongruentStep(a: nat, b: nat, m: nat)
    ensures Congruent(a, b, 62 * m) <==> a % 62 == b % 62 && Congruent(a / 62, b / 62, m)
  {
    if Congruent(a, b, 62 * m) {
      var k :| a - b == Times(k, 62 * m);
      TimesStep(k, m);
      assert a / 62 - b / 62 == Times(k, m);
    }
    if a % 62 == b % 62 && Congruent(a / 62, b / 62, m) {
      var k :| a / 62 - b / 62 == Times(k, m);
      TimesStep(k, m);
      assert a - b == Times(k, 62 * m);
    }
  }

  lemma TimesStep(k: int, m: int)
    ensures Times(k, 62 * m) == 62 * Times(k, m)
  {
  }

  lemma Base62CharsDiffer(a: nat, b: nat)
    requires a < 62 && b < 62
    ensures Base62Char(a) == Base62Char(b) <==> a == b
  {
  }

  /** Two values get the same id exactly when they differ by a multiple of 62 to the eighth, here for any length. */
  lemma {:induction false} SameDigitsIff(a: nat, b: nat, n: nat)
    ensures Base62Digits(a, n) == Base62Digits(b, n) <==> Congruent(a, b, Pow62(n))
    decreases n
  {
    if n == 0 {
      assert a - b == Times(a - b, 1);
    } else {
      SameDigitsIff(a / 62, b / 62, n - 1);
      CongruentStep(a, b, Pow62(n - 1));
      Base62CharsDiffer(a % 62, b % 62);
      hide Base62Char, Congruent;
      LastOf(Base62Digits(a / 62, n - 1), Base62Char(a % 62), Base62Digits(b / 62, n - 1), Base62Char(b % 62));
    }
  }

  lemma ReadSnoc(s: Bytes, c: byte)
    ensures ReadId(s + [c]) == 62 * ReadId(s) + Base62Value(c)
  {
    assert (s + [c])[..|s|] == s;
  }

  lemma ReadStep(val: nat, r: nat, m: nat)
    requires r < m && Congruent(val / 62, r, m)
    ensures 62 * r + val % 62 < 62 * m && Congruent(val, 62 * r + val % 62, 62 * m)
  {
    hide Congruent;
    CongruentStep(val, 62 * r + val % 62, m);
  }

  /** An id holds its value up to a multiple of 62 to its length. */
  lemma {:induction false} IdReadsBack(val: nat, n: nat)
    ensures var id := ReadId(Base62Digits(val, n)); 0 <= id < Pow62(n) && Congruent(val, id, Pow62(n))
    decreases n
  {
    if n == 0 {
      assert val - 0 == Times(val, 1);
    } else {
      IdReadsBack(val / 62, n - 1);
      CharReadsBack(val % 62);
      var s := Base62Digits(val / 62, n - 1);
      ReadStep(val, ReadId(s), Pow62(n - 1));
      ReadSnoc(s, Base62Char(val % 62));
      hide Base62Char, Base62Value, Congruent, ReadId;
    }
  }

  lemma LastOf(s: Bytes, x: byte, t: Bytes, y: byte)
    ensures s + [x] == t + [y] <==> s == t && x == y
  {
    if s + [x] == t + [y] {
      assert (s + [x])[..|s|] == s && (t + [y])[..|t|] == t && (s + [x])[|s|] == x && (t + [y])[|t|] == y;
    }
  }

  /** Eight digits do not hold 48 bits: the values 0 and 62 to the eighth share an id. */
  lemma IdsCollide()
    ensures Pow62(8) < 0x1_0000_0000_0000
    ensures Base62Digits(0, 8) == Base62Digits(Pow62(8), 8)
  {
    assert Pow62(4) == 14776336 && Pow62(8) == 218340105584896;
    SameDigitsIff(0, Pow62(8), 8);
    assert 0 - Pow62(8) == Times(-1, Pow62(8));
  }

  method Base62Encode(val: nat) returns (s: Bytes)
    ensures s == Base62Digits(val, 8)
  {
    var chars := new byte[8];
    var rest, i := val, 8;
    hide Base62Char;
    assert chars[8..] == [] && Base62Digits(val, 8) + [] == Base62Digits(val, 8);
    while i > 0
      invariant 0 <= i <= 8
      invariant Base62Digits(rest, i) + chars[i..] == Base62Digits(val, 8)
    {
      i := i - 1;
      ghost var done := chars[i + 1..];
      chars[i] := Base62Char(rest % 62);
      assert chars[i..] == [Base62Char(rest % 62)] + done;
      Assoc(Base62Digits(rest / 62, i), [Base62Char(rest % 62)], done);
      rest := rest / 62;
    }
    assert chars[0..] == chars[..];
    s := chars[..];
  }

  // ----- One masking pass

  function Display(v: VaultState, original: Bytes, kind: Bytes, src: Sources): Bytes {
    if original in v.originalToSynthetic then v.originalToSynthetic[original]
    else src.generate(|v.originalToSynthetic|, kind, original)
  }

  /** The vault after one span: a new original is stored without a token id first, then the token is indexed. */
  function Learn(v: VaultState, original: Bytes, sp: Span, id: Bytes, src: Sources): VaultState {
    var display := Display(v, original, sp.kind, src);
    var w := InsertNew(v, Entry(original, display, sp.kind, sp.tier, sp.confidence, []));
    AddWithToken(w, Entry(original, display, sp.kind, sp.tier, sp.confidence, id))
  }

  datatype Masked = Masked(text: Bytes, vault: VaultState)

  /** Masking from byte `last` on with the remaining spans, the first of which has number `index`. */
  function Mask(v: VaultState, text: Bytes, spans: seq<Span>, last: nat, index: nat, src: Sources): (m: Masked)
    requires last <= |text|
    requires forall sp :: sp in spans ==> sp.start <= sp.end
    decreases |spans|
  {
    if spans == [] then Masked(text[last..], v)
    else
      var sp := spans[0];
      if sp.start < last || sp.end > |text| then Mask(v, text, spans[1..], last, index + 1, src)
      else
        var gap, original := text[last..sp.start], text[sp.start..sp.end];
        if original in v.syntheticKeys then
          var m := Mask(v, text, spans[1..], sp.end, index + 1, src);
          Masked(gap + (original + m.text), m.vault)
        else
          var id := Base62Digits(src.hash(index), 8);
          var m := Mask(Learn(v, original, sp, id, src), text, spans[1..], sp.end, index + 1, src);
          Masked(gap + (XmlToken(id, Display(v, original, sp.kind, src)) + m.text), m.vault)
  }

  /** The masking loop over a vault object. */
  method ReplaceWithSpansXml(text: Bytes, spans: seq<Span>, vault: PiiVault, baseIndex: nat, src: Sources)
    returns (result: Bytes)
    requires vault.Valid() && forall sp :: sp in spans ==> sp.start <= sp.end
    modifies vault
    ensures Masked(result, vault.State()) == Mask(old(vault.State()), text, spans, 0, baseIndex, src)
    ensures vault.Valid() && Extends(old(vault.State()), vault.State())
  {
    hide Learn, AddWithToken, Insert, VaultState.Valid, Extends, XmlToken, Base62Digits;
    ghost var was := vault.State();
    ghost var whole := Mask(was, text, spans, 0, baseIndex, src);
    ExtendsReflexive(was);
    result := [];
    var last: nat := 0;
    for i := 0 to |spans|
      invariant last <= |text| && vault.Valid() && Extends(was, vault.State())
      invariant var m := Mask(vault.State(), text, spans[i..], last, baseIndex + i, src);
        Masked(result + m.text, m.vault) == whole
    {
      var sp := spans[i];
      assert spans[i..][0] == sp && spans[i..][1..] == spans[i + 1..];
      if sp.start < last || sp.end > |text| { continue; }
      var original := text[sp.start..sp.end];
      ghost var v := vault.State();
      if original in vault.syntheticKeys {
        ghost var m := Mask(v, text, spans[i + 1..], sp.end, baseIndex + i + 1, src);
        Assoc(result + text[last..sp.start], original, m.text);
        Assoc(result, text[last..sp.start], original + m.text);
        result := result + text[last..sp.start] + original;
        last := sp.end;
        continue;
      }
      var display := GetOrCreate(vault, original, sp, src);
      var id := Base62Encode(src.hash(baseIndex + i));
      var token := XmlToken(id, display);
      ghost var w := vault.State();
      vault.AddMappingWithTokenId(Entry(original, display, sp.kind, sp.tier, sp.confidence, id));
      LearnIs(v, original, sp, id, src);
      ghost var m := Mask(vault.State(), text, spans[i + 1..], sp.end, baseIndex + i + 1, src);
      Assoc(result + text[last..sp.start], token, m.text);
      Assoc(result, text[last..sp.start], token + m.text);
      ExtendsTransitive(was, v, w);
      ExtendsTransitive(was, w, vault.State());
      result := result + text[last..sp.start] + token;
      last := sp.end;
    }
    assert spans[|spans|..] == [];
    result := result + text[last..];
  }

  lemma LearnIs(v: VaultState, original: Bytes, sp: Span, id: Bytes, src: Sources)
    ensures
      var display := Display(v, original, sp.kind, src);
      Learn(v, original, sp, id, src) ==
      AddWithToken(InsertNew(v, Entry(original, display, sp.kind, sp.tier, sp.confidence, [])),
                   Entry(original, display, sp.kind, sp.tier, sp.confidence, id))
  {
  }

  /** A known original keeps its synthetic; a new one gets a generated synthetic, stored before it is used. */
  method GetOrCreate(vault: PiiVault, original: Bytes, sp: Span, src: Sources) returns (synthetic: Bytes)
    requires vault.Valid()
    modifies vault
    ensures synthetic == Display(old(vault.State()), original, sp.kind, src)
    ensures vault.State() ==
      InsertNew(old(vault.State()), Entry(original, synthetic, sp.kind, sp.tier, sp.confidence, []))
    ensures vault.Valid() && Extends(old(vault.State()), vault.State())
  {
    hide VaultState.Valid, Extends;
    ExtendsReflexive(vault.State());
    if original in vault.originalToSynthetic { return vault.originalToSynthetic[original]; }
    synthetic := src.generate(|vault.originalToSynthetic|, sp.kind, original);
    vault.AddMapping(Entry(original, synthetic, sp.kind, sp.tier, sp.confidence, []));
  }
}
