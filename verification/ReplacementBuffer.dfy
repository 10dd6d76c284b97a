/** The streaming buffer object: its loops compute the functions that the stream laws are about. */
module Buffer {
  import opened Bytes
  import opened Vault
  import opened VaultStore
  import opened Unmask
  import opened Holdback
  import opened Streaming

  /** Offset of the first `needle` at or after `start`. */
  function FindFrom(haystack: Bytes, start: nat, needle: Bytes): (r: Option<nat>)
    requires start <= |haystack|
    ensures r.Some? ==> start <= r.value && r.value + |needle| <= |haystack|
  {
    match Find(haystack[start..], needle)
    case None => None
    case Some(p) => Some(start + p)
  }

  lemma CascadePlainAt(v: VaultState, t: Bytes, pos: nat)
    requires v.Aligned() && pos <= |t| && FindFrom(t, pos, OPEN).None?
    ensures Cascade(v, t[pos..]) == Replace(v, t[pos..])
  {
    hide Replace;
  }

  lemma CascadeAt(v: VaultState, t: Bytes, pos: nat)
    requires v.Aligned() && pos <= |t| && FindFrom(t, pos, OPEN).Some?
    ensures var p := FindFrom(t, pos, OPEN).value;
      OPEN <= t[p..] && Cascade(v, t[pos..]) == Replace(v, t[pos..p]) + CascadeTag(v, t[p..])
  {
    hide Replace, CascadeTag;
    var rest, p := t[pos..], FindFrom(t, pos, OPEN).value;
    assert rest[p - pos..] == t[p..] && rest[..p - pos] == t[pos..p];
  }

  lemma CascadeTagAt(v: VaultState, t: Bytes, p: nat)
    requires v.Aligned() && p <= |t| && OPEN <= t[p..]
    ensures var close := FindFrom(t, p, CLOSE);
      CascadeTag(v, t[p..]) ==
      if close.None? then t[p..] else Resolve(v, t[p..close.value + 6]) + Cascade(v, t[close.value + 6..])
  {
    hide Resolve, Cascade;
    var rest, close := t[p..], FindFrom(t, p, CLOSE);
    assert close.Some? ==> rest[close.value - p + 6..] == t[close.value + 6..];
    assert close.Some? ==> rest[..close.value - p + 6] == t[p..close.value + 6];
  }

  /** The cascade as a loop over positions. */
  method ApplyXmlTokenCascade(text: Bytes, vault: PiiVault) returns (result: Bytes)
    requires vault.Fresh()
    ensures result == Cascade(vault.State(), text)
  {
    hide Replace, Resolve, Cascade, CascadeTag, Find, FindFrom;
    ghost var v := vault.State();
    assert text[0..] == text;
    if FindFrom(text, 0, OPEN).None? {
      CascadePlainAt(v, text, 0);
      var replaced, _ := vault.ReplaceSynthetics(text);
      return replaced;
    }
    result := [];
    var pos := 0;
    while pos < |text|
      invariant pos <= |text| && vault.Fresh() && vault.State() == v
      invariant result + Cascade(v, text[pos..]) == Cascade(v, text)
    {
      var open := FindFrom(text, pos, OPEN);
      if open.None? {
        CascadePlainAt(v, text, pos);
        var replacedTail, _ := vault.ReplaceSynthetics(text[pos..]);
        return result + replacedTail;
      }
      var p := open.value;
      CascadeAt(v, text, pos);
      CascadeTagAt(v, text, p);
      Assoc(result, Replace(v, text[pos..p]), CascadeTag(v, text[p..]));
      if p > pos {
        var replacedPrefix, _ := vault.ReplaceSynthetics(text[pos..p]);
        result := result + replacedPrefix;
      } else {
        assert text[pos..p] == [];
        ReplaceEmpty(v);
      }
      var close := FindFrom(text, p, CLOSE);
      if close.None? {
        return result + text[p..];
      }
      var tokenEnd := close.value + 6;
      var token := text[p..tokenEnd];
      Assoc(result, Resolve(v, token), Cascade(v, text[tokenEnd..]));
      var restored := RestoreToken(token, vault);
      result := result + restored;
      pos := tokenEnd;
    }
    assert text[pos..] == [];
    CascadeEmpty(v);
  }

  lemma ReplaceEmpty(v: VaultState)
    requires v.Aligned()
    ensures Replace(v, []) == []
  {
  }

  lemma CascadeEmpty(v: VaultState)
    requires v.Aligned()
    ensures Cascade(v, []) == []
  {
  }

  /** Levels 1 to 4 in order; level 3 is only tried when the token has an id. */
  method RestoreToken(token: Bytes, vault: PiiVault) returns (original: Bytes)
    ensures original == Resolve(vault.State(), token)
  {
    if token in vault.fullTokens { return vault.fullTokens[token]; }
    var id := ExtractAttr(token, ID);
    if id.Some? {
      if id.value in vault.tokenIdIndex { return vault.tokenIdIndex[id.value]; }
      var display := ExtractInner(token);
      if display.Some? && display.value in vault.displays { return vault.displays[display.value]; }
    }
    return token;
  }

  method HasPrefixMatch(bytes: Bytes, prefixes: set<Pair>) returns (found: bool)
    ensures found <==> HasTrigger(bytes, prefixes)
  {
    var i := 0;
    while i + 1 < |bytes|
      invariant 0 <= i && (i < |bytes| || i == 0)
      invariant forall j :: 0 <= j < i ==> (bytes[j], bytes[j + 1]) !in prefixes
    {
      if (bytes[i], bytes[i + 1]) in prefixes { return true; }
      i := i + 1;
    }
    if bytes != [] && exists p :: p in prefixes && p.0 == bytes[|bytes| - 1] { return true; }
    return false;
  }

  method FindCharBoundary(s: Bytes, pos: nat) returns (p: nat)
    ensures p == CharBoundary(s, if pos < |s| then pos else |s|)
  {
    p := if pos < |s| then pos else |s|;
    while p > 0 && !IsCharBoundary(s, p)
      invariant p <= |s| && CharBoundary(s, p) == CharBoundary(s, if pos < |s| then pos else |s|)
    {
      p := p - 1;
    }
  }

  method ComputeSafeFlushLen(text: Bytes, maxKeyLen: nat, prefixes: set<Pair>) returns (n: nat)
    ensures n == SafeFlushLen(text, maxKeyLen, prefixes)
  {
    var holdback := OpenTagPos(text);
    if holdback.Some? { return holdback.value; }
    if |text| > maxKeyLen {
      var tailStart := FindCharBoundary(text, |text| - maxKeyLen);
      var hasTrigger := HasPrefixMatch(text[tailStart..], prefixes);
      n := if hasTrigger then tailStart else |text|;
    } else {
      assert text[0..] == text;
      var hasTrigger := HasPrefixMatch(text, prefixes);
      n := if hasTrigger then 0 else |text|;
    }
  }

  class ReplacementBuffer {
    const vault: PiiVault
    var buffer: Bytes
    var triggerPrefixes: set<Pair>
    var cachedMappingCount: nat

    function State(): BufferState
      reads this
    {
      BufferState(buffer, triggerPrefixes, cachedMappingCount)
    }

    constructor (vault: PiiVault)
      ensures this.vault == vault && State() == FRESH
    {
      this.vault := vault;
      buffer, triggerPrefixes, cachedMappingCount := [], {}, 0;
    }

    /** One delta: the text to forward now, and the state that holds the rest back. */
    method ProcessDelta(incoming: Bytes) returns (out: Bytes)
      requires vault.Fresh()
      modifies this
      ensures (out, State()) == DeltaStep(vault.State(), old(State()), incoming)
    {
      hide Cascade, SafeFlushLen, CharBoundary;
      if incoming == [] { return []; }
      buffer := buffer + incoming;
      var count := |vault.originalToSynthetic|;
      if count != cachedMappingCount {
        triggerPrefixes := KeyPrefixes(vault.syntheticKeys);
        cachedMappingCount := count;
      }
      if vault.originalToSynthetic == map[] {
        out, buffer := buffer, [];
        return;
      }
      var processed := ApplyXmlTokenCascade(buffer, vault);
      var safe := ComputeSafeFlushLen(processed, vault.maxKeyLen, triggerPrefixes);
      if safe == 0 {
        buffer := processed;
        assert processed[0..] == processed;
        return [];
      }
      var flushTo := FindCharBoundary(processed, safe);
      out, buffer := processed[..flushTo], processed[flushTo..];
    }

    method FlushRemaining() returns (out: Bytes)
      requires vault.Fresh()
      modifies this
      ensures out == Remaining(vault.State(), old(State()))
      ensures State() == old(State()).(buffer := [])
    {
      if buffer == [] { return []; }
      out := ApplyXmlTokenCascade(buffer, vault);
      buffer := [];
    }
  }

  /** Pumping a list of deltas through a new buffer gives exactly the stream the laws speak about. */
  method StreamAll(vault: PiiVault, deltas: seq<Bytes>) returns (out: Bytes)
    requires vault.Fresh()
    ensures out == Stream(vault.State(), FRESH, deltas)
  {
    hide Cascade, FlushPoint, KeyPrefixes;
    var b := new ReplacementBuffer(vault);
    ghost var v := vault.State();
    out := [];
    for i := 0 to |deltas|
      invariant b.vault == vault && vault.Fresh() && vault.State() == v
      invariant out + Stream(v, b.State(), deltas[i..]) == Stream(v, FRESH, deltas)
    {
      assert deltas[i..][0] == deltas[i] && deltas[i..][1..] == deltas[i + 1..];
      var piece := b.ProcessDelta(deltas[i]);
      out := out + piece;
    }
    assert deltas[|deltas|..] == [];
    var last := b.FlushRemaining();
    out := out + last;
  }
}
