/** The vault as the proxy holds it: parallel vectors, maps and a matcher that has to be rebuilt. */
module VaultStore {
  import opened Bytes
  import opened Vault

  lemma InsertAllStep(v: VaultState, es: seq<Entry>)
    ensures InsertAll(v, es) == if es == [] then v else InsertAll(InsertNew(v, es[0]), es[1..])
  {
  }

  lemma IndexIsAligned(v: VaultState, e: Entry)
    ensures var w := Index(v, e.original, e.synthetic, e.tokenId);
      w.Aligned() == v.Aligned() && w.syntheticKeys == v.syntheticKeys
  {
  }

  lemma NothingToDrain(v: VaultState)
    requires v.Valid()
    ensures v.Aligned() && (v.originalToSynthetic == map[] ==> Quints(v) == [])
  {
    NoMappings(v);
  }

  class PiiVault {
    var originalToSynthetic: map<Bytes, Bytes>
    var syntheticKeys: seq<Bytes>
    var originalValues: seq<Bytes>
    var kinds: seq<Bytes>
    var tiers: seq<byte>
    var confidences: seq<real>
    var tokenIds: seq<Bytes>
    /** Patterns of the matcher as of its last rebuild. */
    var automaton: seq<Bytes>
    var maxKeyLen: nat
    var fullTokens: map<Bytes, Bytes>
    var tokenIdIndex: map<Bytes, Bytes>
    var displays: map<Bytes, Bytes>

    function State(): VaultState
      reads this
    {
      VaultState(originalToSynthetic, syntheticKeys, originalValues, kinds, tiers, confidences, tokenIds, maxKeyLen,
                 fullTokens, tokenIdIndex, displays)
    }

    /** The matcher is over the current keys. */
    predicate Fresh()
      reads this
    {
      automaton == syntheticKeys && State().Aligned()
    }

    ghost predicate Valid()
      reads this
    {
      Fresh() && State().Valid()
    }

    constructor ()
      ensures Valid() && State() == EMPTY
    {
      originalToSynthetic, syntheticKeys, originalValues := map[], [], [];
      kinds, tiers, confidences, tokenIds := [], [], [], [];
      automaton, maxKeyLen := [], 0;
      fullTokens, tokenIdIndex, displays := map[], map[], map[];
    }

    constructor FromRecords(records: seq<Record>)
      ensures Fresh() && State() == Vault.FromRecords(records)
      ensures Valid() <==> DistinctRecords(records)
    {
      originalToSynthetic, syntheticKeys, originalValues := map[], [], [];
      kinds, tiers, confidences, tokenIds := [], [], [], [];
      automaton, maxKeyLen := [], 0;
      fullTokens, tokenIdIndex, displays := map[], map[], map[];
      new;
      hide Insert, Index, Vault.FromRecords, VaultState.Valid, VaultState.Aligned, DistinctRecords;
      NothingRestored();
      assert records[..0] == [];
      for i := 0 to |records|
        invariant State() == Vault.FromRecords(records[..i])
      {
        var r := records[i];
        RestoredStep(records, i);
        var display := if r.display == [] then r.entry.synthetic else r.display;
        InsertMappingRaw(r.entry);
        if r.entry.tokenId != [] { IndexToken(r.entry.original, display, r.entry.tokenId); }
      }
      assert records[..|records|] == records;
      RestoredAligned(records);
      RestoredIsValid(records);
      RebuildAutomaton();
    }

    /** The three token lookups for one mapping. */
    method IndexToken(original: Bytes, display: Bytes, id: Bytes)
      modifies this
      ensures State() == Index(old(State()), original, display, id) && automaton == old(automaton)
    {
      fullTokens := fullTokens[XmlToken(id, display) := original];
      tokenIdIndex := tokenIdIndex[id := original];
      displays := displays[display := original];
    }

    method InsertMappingRaw(e: Entry)
      modifies this
      ensures State() == Insert(old(State()), e) && automaton == old(automaton)
    {
      if |e.synthetic| > maxKeyLen { maxKeyLen := |e.synthetic|; }
      originalToSynthetic := originalToSynthetic[e.original := e.synthetic];
      syntheticKeys := syntheticKeys + [e.synthetic];
      originalValues := originalValues + [e.original];
      PushDetails(e);
    }

    method PushDetails(e: Entry)
      modifies this`kinds, this`tiers, this`confidences, this`tokenIds
      ensures kinds == old(kinds) + [e.kind] && tiers == old(tiers) + [e.tier]
      ensures confidences == old(confidences) + [e.confidence] && tokenIds == old(tokenIds) + [e.tokenId]
    {
      kinds := kinds + [e.kind];
      tiers := tiers + [e.tier];
      confidences := confidences + [e.confidence];
      tokenIds := tokenIds + [e.tokenId];
    }

    method RebuildAutomaton()
      modifies this`automaton
      ensures automaton == syntheticKeys
    {
      automaton := syntheticKeys;
    }

    method AddMapping(e: Entry)
      requires Valid()
      modifies this
      ensures Valid() && State() == InsertNew(old(State()), e) && Extends(old(State()), State())
    {
      hide Extends, Insert, VaultState.Aligned, VaultState.Zipped, VaultState.TrueMax, VaultState.Distinct,
           VaultState.Indexed;
      InsertNewKeeps(State(), e);
      if e.original in originalToSynthetic { return; }
      InsertMappingRaw(e);
      RebuildAutomaton();
    }

    /** The indexes are written even when the original is already mapped. */
    method AddMappingWithTokenId(e: Entry)
      requires Valid()
      modifies this
      ensures Valid() && State() == AddWithToken(old(State()), e) && Extends(old(State()), State())
    {
      hide VaultState.Valid, Extends, Index;
      AddWithTokenKeeps(State(), e);
      IndexIsAligned(InsertNew(State(), e), e);
      if e.original !in originalToSynthetic {
        InsertMappingRaw(e);
        RebuildAutomaton();
      }
      IndexToken(e.original, e.synthetic, e.tokenId);
    }

    method InsertMissing(es: seq<Entry>)
      modifies this
      ensures State() == InsertAll(old(State()), es) && automaton == old(automaton)
    {
      hide InsertAll, Insert;
      ghost var was := State();
      for i := 0 to |es|
        invariant InsertAll(State(), es[i..]) == InsertAll(was, es) && automaton == old(automaton)
      {
        assert es[i..][0] == es[i] && es[i..][1..] == es[i + 1..];
        InsertAllStep(State(), es[i..]);
        if es[i].original !in originalToSynthetic { InsertMappingRaw(es[i]); }
      }
      assert es[|es|..] == [];
      InsertAllStep(State(), []);
    }

    method ExtendIndexes(other: PiiVault)
      modifies this
      ensures other != this ==> other.State() == old(other.State())
      ensures State() == WithIndexes(old(State()), old(other.State())) && automaton == old(automaton)
    {
      fullTokens := other.fullTokens + fullTokens;
      tokenIdIndex := other.tokenIdIndex + tokenIdIndex;
      displays := other.displays + displays;
    }

    /** Draining another vault: the matcher is rebuilt once, and only if there was something to drain. */
    method MergeFrom(other: PiiVault)
      requires Valid() && other.Valid() && other != this
      modifies this
      ensures Valid() && State() == Merge(old(State()), other.State()) && Extends(old(State()), State())
    {
      hide Extends, Insert, InsertAll, Quints, WithIndexes, VaultState.Zipped, VaultState.TrueMax, VaultState.Distinct,
           VaultState.Indexed;
      MergeIsUnion(State(), other.State());
      NothingToDrain(other.State());
      var es := Quints(other.State());
      InsertAllStep(State(), []);
      InsertMissing(es);
      ExtendIndexes(other);
      if other.originalToSynthetic != map[] { RebuildAutomaton(); }
    }

    /** Restores every key of the text, leftmost and longest first, and tells whether there was one. */
    method ReplaceSynthetics(text: Bytes) returns (result: Bytes, any: bool)
      requires Fresh()
      ensures result == Replace(State(), text)
      ensures any <==> NextMatch(syntheticKeys, text, 0).Some?
    {
      hide Replace, NextMatch, BestKey;
      result, any := [], false;
      var last := 0;
      var m := NextMatch(automaton, text, last);
      assert text[0..] == text;
      while m.Some?
        invariant last <= |text| && m == NextMatch(syntheticKeys, text, last)
        invariant result + Replace(State(), text[last..]) == Replace(State(), text)
        invariant any || last == 0
        invariant any ==> NextMatch(syntheticKeys, text, 0).Some?
        decreases |text| - last
      {
        ReplaceToMatch(State(), text, last);
        ghost var rest := Replace(State(), text[m.value.start + |automaton[m.value.pattern]|..]);
        Assoc(result, text[last..m.value.start] + originalValues[m.value.pattern], rest);
        Assoc(result, text[last..m.value.start], originalValues[m.value.pattern]);
        result := result + text[last..m.value.start] + originalValues[m.value.pattern];
        last := m.value.start + |automaton[m.value.pattern]|;
        any := true;
        m := NextMatch(automaton, text, last);
      }
      ReplaceToEnd(State(), text, last);
      result := result + text[last..];
    }
  }
}
