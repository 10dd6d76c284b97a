/** The per-conversation store of original/synthetic pairs and its token indexes. */
module Vault {
  import opened Bytes

  datatype VaultState = VaultState(
    originalToSynthetic: map<Bytes, Bytes>,
    syntheticKeys: seq<Bytes>,
    originalValues: seq<Bytes>,
    kinds: seq<Bytes>,
    tiers: seq<byte>,
    confidences: seq<real>,
    tokenIds: seq<Bytes>,
    maxKeyLen: nat,
    fullTokens: map<Bytes, Bytes>,
    tokenIdIndex: map<Bytes, Bytes>,
    displays: map<Bytes, Bytes>)
  {
    /** The parallel sequences have one entry per mapping. */
    predicate Aligned() {
      && |syntheticKeys| == |originalValues| == |kinds| == |tiers|
      && |kinds| == |confidences| == |tokenIds|
    }

    /** The outbound map is the zip of the two parallel sequences. */
    ghost predicate Zipped()
      requires Aligned()
    {
      && (forall i :: 0 <= i < |originalValues| ==>
            originalValues[i] in originalToSynthetic && originalToSynthetic[originalValues[i]] == syntheticKeys[i])
      && (forall o :: o in originalToSynthetic ==> o in originalValues)
    }

    ghost predicate Distinct() {
      forall i, j :: 0 <= i < j < |originalValues| ==> originalValues[i] != originalValues[j]
    }

    /** `maxKeyLen` is the length of the longest key, 0 without keys. */
    ghost predicate TrueMax() {
      && (forall k :: k in syntheticKeys ==> |k| <= maxKeyLen)
      && (maxKeyLen > 0 ==> exists k :: k in syntheticKeys && |k| == maxKeyLen)
    }

    /** Token lookups only ever answer with a mapped original. */
    ghost predicate Indexed() {
      fullTokens.Values + tokenIdIndex.Values + displays.Values <= originalToSynthetic.Keys
    }

    ghost predicate Valid() {
      Aligned() && Zipped() && Distinct() && TrueMax() && Indexed()
    }
  }

  const EMPTY := VaultState(map[], [], [], [], [], [], [], 0, map[], map[], map[])

  datatype Entry = Entry(original: Bytes, synthetic: Bytes, kind: Bytes, tier: byte, confidence: real, tokenId: Bytes)

  /** One mapping appended to every parallel sequence, without a look at what is there. */
  function Insert(v: VaultState, e: Entry): VaultState {
    v.(maxKeyLen := if |e.synthetic| > v.maxKeyLen then |e.synthetic| else v.maxKeyLen,
       originalToSynthetic := v.originalToSynthetic[e.original := e.synthetic],
       syntheticKeys := v.syntheticKeys + [e.synthetic],
       originalValues := v.originalValues + [e.original],
       kinds := v.kinds + [e.kind],
       tiers := v.tiers + [e.tier],
       confidences := v.confidences + [e.confidence],
       tokenIds := v.tokenIds + [e.tokenId])
  }

  function InsertNew(v: VaultState, e: Entry): VaultState {
    if e.original in v.originalToSynthetic then v else Insert(v, e)
  }

  const TOKEN_HEAD: Bytes := [60, 112, 105, 105, 32, 105, 100, 61, 34] // <pii id="
  const TOKEN_MID: Bytes := [34, 62]                                   // ">
  const CLOSE: Bytes := [60, 47, 112, 105, 105, 62]               // </pii>

  function XmlToken(id: Bytes, display: Bytes): Bytes {
    TOKEN_HEAD + id + TOKEN_MID + display + CLOSE
  }

  function Index(v: VaultState, original: Bytes, display: Bytes, id: Bytes): VaultState {
    v.(fullTokens := v.fullTokens[XmlToken(id, display) := original],
       tokenIdIndex := v.tokenIdIndex[id := original],
       displays := v.displays[display := original])
  }

  /** The core insert is skipped for a known original; the indexes are written either way. */
  function AddWithToken(v: VaultState, e: Entry): VaultState {
    Index(InsertNew(v, e), e.original, e.synthetic, e.tokenId)
  }

  /** All entries in order, known originals skipped. */
  function InsertAll(v: VaultState, es: seq<Entry>): VaultState
    decreases |es|
  {
    if es == [] then v else InsertAll(InsertNew(v, es[0]), es[1..])
  }

  /** The mappings of a vault, without their token ids. */
  function Quints(v: VaultState): (es: seq<Entry>)
    requires v.Aligned()
    ensures |es| == |v.originalValues|
  {
    seq(|v.originalValues|, i requires 0 <= i < |v.originalValues| =>
      Entry(v.originalValues[i], v.syntheticKeys[i], v.kinds[i], v.tiers[i], v.confidences[i], []))
  }

  /** Draining `from` into `into`: mappings and index entries that `into` lacks are copied. */
  function Merge(into: VaultState, from: VaultState): VaultState
    requires from.Aligned()
  {
    WithIndexes(InsertAll(into, Quints(from)), from)
  }

  function WithIndexes(v: VaultState, from: VaultState): (w: VaultState)
    ensures w.syntheticKeys == v.syntheticKeys
  {
    v.(fullTokens := from.fullTokens + v.fullTokens,
       tokenIdIndex := from.tokenIdIndex + v.tokenIdIndex,
       displays := from.displays + v.displays)
  }

  // ----- Persistence

  datatype Record = Record(entry: Entry, display: Bytes)

  function ToRecords(v: VaultState): (rs: seq<Record>)
    requires v.Aligned()
    ensures |rs| == |v.originalValues|
  {
    seq(|v.originalValues|, i requires 0 <= i < |v.originalValues| =>
      Record(Entry(v.originalValues[i], v.syntheticKeys[i], v.kinds[i], v.tiers[i], v.confidences[i], v.tokenIds[i]),
             v.syntheticKeys[i]))
  }

  /** One record read back: inserted without a duplicate test, indexed if it carries a token id. */
  function Restore(v: VaultState, r: Record): VaultState {
    var display := if r.display == [] then r.entry.synthetic else r.display;
    var w := Insert(v, r.entry);
    if r.entry.tokenId == [] then w else Index(w, r.entry.original, display, r.entry.tokenId)
  }

  function FromRecords(rs: seq<Record>): VaultState {
    if rs == [] then EMPTY else Restore(FromRecords(rs[..|rs| - 1]), rs[|rs| - 1])
  }

  // ----- Every operation keeps the invariant and every existing mapping

  /** Nothing that `v` maps is changed in `w`. */
  ghost predicate Extends(v: VaultState, w: VaultState) {
    && v.syntheticKeys <= w.syntheticKeys
    && v.originalValues <= w.originalValues
    && forall o :: o in v.originalToSynthetic ==>
         o in w.originalToSynthetic && w.originalToSynthetic[o] == v.originalToSynthetic[o]
  }

  lemma ExtendsTransitive(u: VaultState, v: VaultState, w: VaultState)
    requires Extends(u, v) && Extends(v, w)
    ensures Extends(u, w)
  {
  }

  lemma InsertKeepsMax(v: VaultState, e: Entry)
    requires v.TrueMax()
    ensures Insert(v, e).TrueMax()
  {
    var w := Insert(v, e);
    assert e.synthetic in w.syntheticKeys;
    assert forall k :: k in v.syntheticKeys ==> k in w.syntheticKeys;
  }

  lemma InsertKeepsZip(v: VaultState, e: Entry)
    requires v.Aligned() && v.Zipped() && e.original !in v.originalToSynthetic
    ensures Insert(v, e).Zipped()
  {
    var w, n := Insert(v, e), |v.originalValues|;
    assert forall i :: 0 <= i < n ==> w.originalValues[i] == v.originalValues[i] != e.original;
    assert w.originalValues[n] == e.original;
    forall o | o in w.originalToSynthetic ensures o in w.originalValues {
      assert o == e.original || o in v.originalValues;
    }
  }

  lemma InsertKeepsIndex(v: VaultState, e: Entry)
    requires v.Indexed()
    ensures Insert(v, e).Indexed()
  {
    assert Insert(v, e).originalToSynthetic.Keys == v.originalToSynthetic.Keys + {e.original};
  }

  lemma InsertKeepsDistinct(v: VaultState, e: Entry)
    requires v.Distinct() && e.original !in v.originalValues
    ensures Insert(v, e).Distinct()
  {
  }

  lemma Unmapped(v: VaultState, o: Bytes)
    requires v.Aligned() && v.Zipped() && o !in v.originalToSynthetic
    ensures o !in v.originalValues
  {
  }

  lemma InsertExtends(v: VaultState, e: Entry)
    requires e.original !in v.originalToSynthetic
    ensures Extends(v, Insert(v, e))
  {
  }

  lemma InsertKeeps(v: VaultState, e: Entry)
    requires v.Valid() && e.original !in v.originalToSynthetic
    ensures Insert(v, e).Valid() && Extends(v, Insert(v, e))
  {
    hide VaultState.TrueMax, VaultState.Indexed, VaultState.Distinct, VaultState.Zipped, Extends;
    InsertExtends(v, e);
    InsertKeepsMax(v, e);
    InsertKeepsZip(v, e);
    InsertKeepsIndex(v, e);
    Unmapped(v, e.original);
    InsertKeepsDistinct(v, e);
  }

  lemma InsertNewKeeps(v: VaultState, e: Entry)
    requires v.Valid()
    ensures InsertNew(v, e).Valid() && Extends(v, InsertNew(v, e))
    ensures e.original in InsertNew(v, e).originalToSynthetic
  {
    hide VaultState.Valid;
    if e.original !in v.originalToSynthetic { InsertKeeps(v, e); }
  }

  lemma IndexKeeps(v: VaultState, original: Bytes, display: Bytes, id: Bytes)
    requires v.Valid() && original in v.originalToSynthetic
    ensures Index(v, original, display, id).Valid()
  {
    var w := Index(v, original, display, id);
    IndexKeepsIndexed(v, original, display, id);
    hide Index, VaultState.Indexed;
    CoreIsValid(v, w);
  }

  lemma IndexKeepsIndexed(v: VaultState, original: Bytes, display: Bytes, id: Bytes)
    requires v.Indexed() && original in v.originalToSynthetic
    ensures
      var w := Index(v, original, display, id);
      w.Indexed() && w == v.(fullTokens := w.fullTokens, tokenIdIndex := w.tokenIdIndex, displays := w.displays)
  {
    hide XmlToken;
    var w := Index(v, original, display, id);
    assert w.fullTokens.Values <= v.fullTokens.Values + {original};
    assert w.tokenIdIndex.Values <= v.tokenIdIndex.Values + {original};
    assert w.displays.Values <= v.displays.Values + {original};
  }

  /** The invariant on the mappings does not look at the indexes. */
  lemma CoreIsValid(v: VaultState, w: VaultState)
    requires v.Valid() && w.Indexed()
    requires w == v.(fullTokens := w.fullTokens, tokenIdIndex := w.tokenIdIndex, displays := w.displays)
    ensures w.Valid()
  {
  }

  lemma AddWithTokenKeeps(v: VaultState, e: Entry)
    requires v.Valid()
    ensures AddWithToken(v, e).Valid() && Extends(v, AddWithToken(v, e))
    ensures AddWithToken(v, e).originalToSynthetic == InsertNew(v, e).originalToSynthetic
  {
    hide VaultState.Valid, InsertNew;
    InsertNewKeeps(v, e);
    IndexKeeps(InsertNew(v, e), e.original, e.synthetic, e.tokenId);
  }

  lemma {:induction false} InsertAllKeeps(v: VaultState, es: seq<Entry>)
    requires v.Valid()
    ensures InsertAll(v, es).Valid() && Extends(v, InsertAll(v, es))
    decreases |es|
  {
    hide VaultState.Valid, InsertNew;
    if es == [] {
    } else {
      var w := InsertNew(v, es[0]);
      InsertNewKeeps(v, es[0]);
      InsertAllKeeps(w, es[1..]);
      ExtendsTransitive(v, w, InsertAll(w, es[1..]));
    }
  }

  /** Draining keeps the sequences aligned, even for vaults with repeated originals. */
  lemma MergeIsAligned(into: VaultState, from: VaultState)
    requires into.Aligned() && from.Aligned()
    ensures Merge(into, from).Aligned()
  {
    hide InsertAll, Quints;
    InsertAllIsAligned(into, Quints(from));
  }

  lemma {:induction false} InsertAllIsAligned(v: VaultState, es: seq<Entry>)
    requires v.Aligned()
    ensures InsertAll(v, es).Aligned()
    decreases |es|
  {
    if es == [] {
    } else {
      InsertAllIsAligned(InsertNew(v, es[0]), es[1..]);
    }
  }

  /** Draining one vault into another gives the union of the mappings, the target winning, indexes included. */
  lemma MergeIsUnion(into: VaultState, from: VaultState)
    requires into.Valid() && from.Valid()
    ensures Merge(into, from).Valid() && Extends(into, Merge(into, from))
    ensures Merge(into, from).originalToSynthetic == from.originalToSynthetic + into.originalToSynthetic
    ensures Merge(into, from).fullTokens == from.fullTokens + into.fullTokens
    ensures Merge(into, from).tokenIdIndex == from.tokenIdIndex + into.tokenIdIndex
    ensures Merge(into, from).displays == from.displays + into.displays
  {
    hide VaultState.Zipped, VaultState.TrueMax, VaultState.Distinct, VaultState.Indexed, Extends, InsertAll;
    var es := Quints(from);
    InsertAllKeeps(into, es);
    InsertAllKeepsIndexes(into, es);
    DrainedMap(into, from);
    MergedIndexes(into, from);
    CoreIsValid(InsertAll(into, es), Merge(into, from));
    SameCoreExtends(into, InsertAll(into, es), Merge(into, from));
  }

  /** The mappings among `es` whose original `v` lacks. */
  function Missing(es: seq<Entry>, v: VaultState): seq<Entry> {
    if es == [] then []
    else (if es[0].original in v.originalToSynthetic then [] else [es[0]]) + Missing(es[1..], v)
  }

  function Rows(v: VaultState): seq<Entry>
    requires v.Aligned()
  {
    seq(|v.originalValues|, i requires 0 <= i < |v.originalValues| => Row(v, i))
  }

  /** The rows of a merge: the target's, then those of the source that it lacks, as they are but for their ids. */
  lemma MergedRows(into: VaultState, from: VaultState)
    requires into.Aligned() && from.Aligned() && from.Distinct()
    ensures Merge(into, from).Aligned()
    ensures forall i :: 0 <= i < |from.originalValues| ==> Quints(from)[i] == Rows(from)[i].(tokenId := [])
    ensures Rows(Merge(into, from)) == Rows(into) + Missing(Quints(from), into)
  {
    var es := Quints(from);
    assert forall i, j :: 0 <= i < j < |es| ==> es[i].original != es[j].original;
    InsertAllRows(into, es);
    SameSequences(InsertAll(into, es), Merge(into, from));
  }

  lemma SameSequences(v: VaultState, w: VaultState)
    requires v.Aligned()
    requires w == v.(fullTokens := w.fullTokens, tokenIdIndex := w.tokenIdIndex, displays := w.displays)
    ensures w.Aligned() && Rows(w) == Rows(v)
  {
  }

  lemma {:induction false} InsertAllRows(v: VaultState, es: seq<Entry>)
    requires v.Aligned() && forall i, j :: 0 <= i < j < |es| ==> es[i].original != es[j].original
    ensures InsertAll(v, es).Aligned() && Rows(InsertAll(v, es)) == Rows(v) + Missing(es, v)
    decreases |es|
  {
    if es == [] {
    } else {
      var w := InsertNew(v, es[0]);
      InsertNewRows(v, es[0]);
      hide VaultState.Aligned, Rows, InsertNew, Row;
      InsertAllRows(w, es[1..]);
      MissingElsewhere(es[1..], v, w, es[0].original);
    }
  }

  lemma InsertNewRows(v: VaultState, e: Entry)
    requires v.Aligned()
    ensures
      var w := InsertNew(v, e);
      && w.Aligned() && Rows(w) == Rows(v) + (if e.original in v.originalToSynthetic then [] else [e])
      && forall o :: o != e.original ==> (o in w.originalToSynthetic <==> o in v.originalToSynthetic)
  {
  }

  lemma {:induction false} MissingElsewhere(es: seq<Entry>, v: VaultState, w: VaultState, o: Bytes)
    requires forall i :: 0 <= i < |es| ==> es[i].original != o
    requires forall p :: p != o ==> (p in w.originalToSynthetic <==> p in v.originalToSynthetic)
    ensures Missing(es, w) == Missing(es, v)
    decreases |es|
  {
    if es == [] {
    } else {
      MissingElsewhere(es[1..], v, w, o);
    }
  }

  lemma SameCoreExtends(u: VaultState, v: VaultState, w: VaultState)
    requires Extends(u, v)
    requires w == v.(fullTokens := w.fullTokens, tokenIdIndex := w.tokenIdIndex, displays := w.displays)
    ensures Extends(u, w)
  {
  }

  /** The quints of a vault are its outbound map, each original once. */
  lemma QuintsAreTheMap(v: VaultState)
    requires v.Aligned() && v.Zipped() && v.Distinct()
    ensures var es := Quints(v);
      && (forall i, j :: 0 <= i < j < |es| ==> es[i].original != es[j].original)
      && (forall o :: o in v.originalToSynthetic ==> exists i :: 0 <= i < |es| && es[i].original == o)
      && (forall i :: 0 <= i < |es| ==> es[i].original in v.originalToSynthetic)
      && (forall i :: 0 <= i < |es| ==> v.originalToSynthetic[es[i].original] == es[i].synthetic)
  {
    var es := Quints(v);
    forall o | o in v.originalToSynthetic ensures exists i :: 0 <= i < |es| && es[i].original == o {
      var i :| 0 <= i < |v.originalValues| && v.originalValues[i] == o;
      assert es[i].original == o;
    }
  }

  lemma DrainedMap(into: VaultState, from: VaultState)
    requires from.Aligned() && from.Zipped() && from.Distinct()
    ensures InsertAll(into, Quints(from)).originalToSynthetic == from.originalToSynthetic + into.originalToSynthetic
  {
    hide InsertAll, VaultState.Zipped, VaultState.Distinct, Quints;
    QuintsAreTheMap(from);
    InsertAllLooksUp(into, Quints(from));
  }

  lemma MergedIndexes(into: VaultState, from: VaultState)
    requires into.Indexed() && from.Indexed() && from.Aligned()
    requires InsertAll(into, Quints(from)).originalToSynthetic == from.originalToSynthetic + into.originalToSynthetic
    requires var v := InsertAll(into, Quints(from));
      v.fullTokens == into.fullTokens && v.tokenIdIndex == into.tokenIdIndex && v.displays == into.displays
    ensures Merge(into, from).Indexed()
  {
    hide InsertAll, Quints;
    UnionKeysAndValues(from.originalToSynthetic, into.originalToSynthetic);
    UnionKeysAndValues(from.fullTokens, into.fullTokens);
    UnionKeysAndValues(from.tokenIdIndex, into.tokenIdIndex);
    UnionKeysAndValues(from.displays, into.displays);
  }

  lemma UnionKeysAndValues(a: map<Bytes, Bytes>, b: map<Bytes, Bytes>)
    ensures (a + b).Keys == a.Keys + b.Keys
    ensures (a + b).Values <= a.Values + b.Values
  {
  }

  lemma {:induction false} InsertAllKeepsIndexes(v: VaultState, es: seq<Entry>)
    ensures InsertAll(v, es).fullTokens == v.fullTokens
    ensures InsertAll(v, es).tokenIdIndex == v.tokenIdIndex
    ensures InsertAll(v, es).displays == v.displays
    decreases |es|
  {
    if es == [] {
    } else {
      InsertAllKeepsIndexes(InsertNew(v, es[0]), es[1..]);
    }
  }

  /** After `InsertAll` a key is looked up in the old map first and then in the first entry that has it. */
  lemma {:induction false} InsertAllLooksUp(v: VaultState, es: seq<Entry>)
    requires forall i, j :: 0 <= i < j < |es| ==> es[i].original != es[j].original
    ensures
      var m := InsertAll(v, es).originalToSynthetic;
      && (forall o :: o in v.originalToSynthetic ==> o in m && m[o] == v.originalToSynthetic[o])
      && (forall i :: 0 <= i < |es| ==> es[i].original in m)
      && (forall i :: 0 <= i < |es| && es[i].original !in v.originalToSynthetic ==>
            m[es[i].original] == es[i].synthetic)
      && (forall o :: o in m ==> o in v.originalToSynthetic || exists i :: 0 <= i < |es| && es[i].original == o)
    decreases |es|
  {
    if es == [] {
    } else {
      var w := InsertNew(v, es[0]);
      var m := InsertAll(v, es).originalToSynthetic;
      InsertAllLooksUp(w, es[1..]);
      assert es[0].original in w.originalToSynthetic;
      forall i | 0 <= i < |es|
        ensures es[i].original in m &&
          (es[i].original !in v.originalToSynthetic ==> m[es[i].original] == es[i].synthetic)
      {
        if i > 0 { assert es[i] == es[1..][i - 1]; }
      }
      forall o | o in m ensures o in v.originalToSynthetic || exists i :: 0 <= i < |es| && es[i].original == o {
        if o !in w.originalToSynthetic {
          var i :| 0 <= i < |es[1..]| && es[1..][i].original == o;
          assert es[i + 1].original == o;
        }
      }
    }
  }

  // ----- Persistence round trip

  /** The mapping at one position of the parallel sequences. */
  function Row(v: VaultState, i: nat): Entry
    requires v.Aligned() && i < |v.originalValues|
  {
    Entry(v.originalValues[i], v.syntheticKeys[i], v.kinds[i], v.tiers[i], v.confidences[i], v.tokenIds[i])
  }

  lemma InsertRow(v: VaultState, e: Entry, w: VaultState)
    requires v.Aligned()
    requires w == Insert(v, e).(fullTokens := w.fullTokens, tokenIdIndex := w.tokenIdIndex, displays := w.displays)
    ensures w.Aligned() && |w.originalValues| == |v.originalValues| + 1
    ensures forall i :: 0 <= i < |v.originalValues| ==> Row(w, i) == Row(v, i)
    ensures Row(w, |v.originalValues|) == e
  {
  }

  lemma {:induction false} RestoredSequences(rs: seq<Record>)
    ensures var v := FromRecords(rs);
      v.Aligned() && |v.originalValues| == |rs| && forall i :: 0 <= i < |rs| ==> Row(v, i) == rs[i].entry
  {
    hide Row, Insert, XmlToken;
    if rs == [] {
    } else {
      var init, last := rs[..|rs| - 1], rs[|rs| - 1];
      RestoredSequences(init);
      InsertRow(FromRecords(init), last.entry, FromRecords(rs));
    }
  }

  lemma RestoredAligned(rs: seq<Record>)
    ensures FromRecords(rs).Aligned()
  {
    RestoredSequences(rs);
  }

  lemma RestoredOriginals(rs: seq<Record>)
    ensures |FromRecords(rs).originalValues| == |rs|
    ensures forall i :: 0 <= i < |rs| ==> FromRecords(rs).originalValues[i] == rs[i].entry.original
  {
    hide FromRecords;
    RestoredSequences(rs);
    forall i | 0 <= i < |rs| ensures FromRecords(rs).originalValues[i] == rs[i].entry.original {
      assert Row(FromRecords(rs), i) == rs[i].entry;
    }
  }

  lemma SameRows(v: VaultState, w: VaultState)
    requires v.Aligned() && w.Aligned() && |v.originalValues| == |w.originalValues|
    requires forall i :: 0 <= i < |v.originalValues| ==> Row(w, i) == Row(v, i)
    ensures w.originalValues == v.originalValues && w.syntheticKeys == v.syntheticKeys && w.kinds == v.kinds
    ensures w.tiers == v.tiers && w.confidences == v.confidences && w.tokenIds == v.tokenIds
  {
    forall i | 0 <= i < |v.originalValues|
      ensures w.originalValues[i] == v.originalValues[i] && w.syntheticKeys[i] == v.syntheticKeys[i]
      ensures w.kinds[i] == v.kinds[i] && w.tiers[i] == v.tiers[i]
      ensures w.confidences[i] == v.confidences[i] && w.tokenIds[i] == v.tokenIds[i]
    {
      assert Row(w, i) == Row(v, i);
    }
  }

  ghost predicate DistinctRecords(rs: seq<Record>) {
    forall i, j :: 0 <= i < j < |rs| ==> rs[i].entry.original != rs[j].entry.original
  }

  lemma RestoreKeeps(v: VaultState, r: Record)
    requires v.Valid() && r.entry.original !in v.originalValues
    ensures Restore(v, r).Valid()
  {
    hide VaultState.TrueMax, VaultState.Indexed, VaultState.Distinct, Index, Insert;
    InsertKeeps(v, r.entry);
    var display := if r.display == [] then r.entry.synthetic else r.display;
    InsertedOriginal(v, r.entry);
    IndexKeeps(Insert(v, r.entry), r.entry.original, display, r.entry.tokenId);
  }

  lemma InsertedOriginal(v: VaultState, e: Entry)
    ensures e.original in Insert(v, e).originalToSynthetic
  {
  }

  /** Restoring does not test for duplicates, so it gives a consistent vault exactly when there are none. */
  lemma {:induction false} RestoredIsValid(rs: seq<Record>)
    ensures FromRecords(rs).Valid() <==> DistinctRecords(rs)
  {
    hide VaultState.TrueMax, VaultState.Indexed, VaultState.Zipped, Restore;
    RestoredOriginals(rs);
    if rs == [] {
      EmptyIsValid();
    } else if DistinctRecords(rs) {
      var init, last := rs[..|rs| - 1], rs[|rs| - 1];
      RestoredIsValid(init);
      RestoredOriginals(init);
      assert last.entry.original !in FromRecords(init).originalValues;
      RestoreKeeps(FromRecords(init), last);
    }
  }

  lemma NoMappings(v: VaultState)
    requires v.Aligned() && v.Zipped()
    ensures v.originalToSynthetic == map[] ==> v.syntheticKeys == [] && v.originalValues == []
  {
    assert v.originalValues != [] ==> v.originalValues[0] in v.originalToSynthetic;
  }

  lemma NothingRestored()
    ensures FromRecords([]) == EMPTY
  {
  }

  lemma RestoredStep(rs: seq<Record>, i: nat)
    requires i < |rs|
    ensures FromRecords(rs[..i + 1]) == Restore(FromRecords(rs[..i]), rs[i])
  {
    hide Restore;
    assert rs[..i + 1][..i] == rs[..i];
  }

  lemma EmptyIsValid()
    ensures EMPTY.Valid()
  {
  }

  /** Two consistent vaults with the same sequences have the same map and the same maximum. */
  lemma SequencesDetermineCore(v: VaultState, w: VaultState)
    requires v.Valid() && w.Valid()
    requires v.originalValues == w.originalValues && v.syntheticKeys == w.syntheticKeys
    ensures v.originalToSynthetic == w.originalToSynthetic && v.maxKeyLen == w.maxKeyLen
  {
    hide VaultState.Indexed, VaultState.Distinct;
    SameMap(v, w);
    SameMax(v, w);
  }

  lemma SameMap(v: VaultState, w: VaultState)
    requires v.Aligned() && w.Aligned() && v.Zipped() && w.Zipped()
    requires v.originalValues == w.originalValues && v.syntheticKeys == w.syntheticKeys
    ensures v.originalToSynthetic == w.originalToSynthetic
  {
    forall o | o in v.originalValues
      ensures v.originalToSynthetic[o] == w.originalToSynthetic[o]
    {
      var i :| 0 <= i < |v.originalValues| && v.originalValues[i] == o;
    }
  }

  lemma SameMax(v: VaultState, w: VaultState)
    requires v.TrueMax() && w.TrueMax() && v.syntheticKeys == w.syntheticKeys
    ensures v.maxKeyLen == w.maxKeyLen
  {
  }

  /** Saving and restoring gives back every mapping; only the token indexes may differ. */
  lemma RecordsRoundTrip(v: VaultState)
    requires v.Valid()
    ensures var w := FromRecords(ToRecords(v));
      w.Valid() && w == v.(fullTokens := w.fullTokens, tokenIdIndex := w.tokenIdIndex, displays := w.displays)
  {
    hide VaultState.TrueMax, VaultState.Indexed, VaultState.Zipped, FromRecords;
    var rs := ToRecords(v);
    var w := FromRecords(rs);
    RestoredIsValid(rs);
    RestoredSequences(rs);
    SameRows(v, w);
    SequencesDetermineCore(v, w);
  }

  /** An empty display stands for the synthetic. */
  function RecordDisplay(r: Record): Bytes {
    if r.display == [] then r.entry.synthetic else r.display
  }

  function RecordId(r: Record): Bytes {
    r.entry.tokenId
  }

  function RecordToken(r: Record): Bytes {
    XmlToken(RecordId(r), RecordDisplay(r))
  }

  /** Record `i` has an id and carries `t`. */
  ghost predicate Carries(rs: seq<Record>, mark: Record -> Bytes, t: Bytes, i: int) {
    0 <= i < |rs| && RecordId(rs[i]) != [] && mark(rs[i]) == t
  }

  /** What the records say that a token, an id or a display stands for. */
  function SaidBy(rs: seq<Record>, mark: Record -> Bytes): map<Bytes, Bytes> {
    if rs == [] then map[]
    else
      var r, before := rs[|rs| - 1], SaidBy(rs[..|rs| - 1], mark);
      if RecordId(r) == [] then before else before[mark(r) := r.entry.original]
  }

  /** Exactly what some record with an id carries is known, and the last such record decides its meaning. */
  lemma {:induction false} SaidByIs(rs: seq<Record>, mark: Record -> Bytes, t: Bytes)
    ensures t in SaidBy(rs, mark) <==> exists i :: Carries(rs, mark, t, i)
    ensures forall i | LastToCarry(rs, mark, t, i) ::
      t in SaidBy(rs, mark) && SaidBy(rs, mark)[t] == rs[i].entry.original
    decreases |rs|
  {
    if rs == [] {
    } else {
      var n := |rs| - 1;
      var init := rs[..n];
      SaidByIs(init, mark, t);
      SaidByStep(rs, mark);
      CarriesStep(rs, mark, t);
      LastStep(rs, mark, t);
      hide SaidBy, RecordId, Carries, LastToCarry;
      assert forall i :: 0 <= i < n ==> init[i] == rs[i];
      assert Carries(rs, mark, t, n) <==> t == mark(rs[n]) && RecordId(rs[n]) != [];
    }
  }

  ghost predicate LastToCarry(rs: seq<Record>, mark: Record -> Bytes, t: Bytes, i: int) {
    Carries(rs, mark, t, i) && forall j :: i < j < |rs| ==> !Carries(rs, mark, t, j)
  }

  lemma SaidByStep(rs: seq<Record>, mark: Record -> Bytes)
    requires rs != []
    ensures
      var n := |rs| - 1;
      var before := SaidBy(rs[..n], mark);
      SaidBy(rs, mark) ==
      if RecordId(rs[n]) == [] then before else before[mark(rs[n]) := rs[n].entry.original]
  {
  }

  lemma LastStep(rs: seq<Record>, mark: Record -> Bytes, t: Bytes)
    requires rs != []
    ensures
      var n := |rs| - 1;
      forall i :: LastToCarry(rs, mark, t, i) ==>
        0 <= i <= n && if Carries(rs, mark, t, n) then i == n else i < n && LastToCarry(rs[..n], mark, t, i)
  {
    CarriesStep(rs, mark, t);
    hide Carries;
  }

  lemma CarriesStep(rs: seq<Record>, mark: Record -> Bytes, t: Bytes)
    requires rs != []
    ensures
      var n := |rs| - 1;
      && (forall i :: Carries(rs[..n], mark, t, i) <==> i != n && Carries(rs, mark, t, i))
      && (Carries(rs, mark, t, n) <==> RecordId(rs[n]) != [] && mark(rs[n]) == t)
      && forall i :: Carries(rs, mark, t, i) ==> 0 <= i <= n
  {
  }

  /** A restored vault's three lookups are those of its records. */
  lemma {:induction false} RestoredTokens(rs: seq<Record>)
    ensures FromRecords(rs).fullTokens == SaidBy(rs, RecordToken)
    ensures FromRecords(rs).tokenIdIndex == SaidBy(rs, RecordId)
    ensures FromRecords(rs).displays == SaidBy(rs, RecordDisplay)
  {
    hide XmlToken;
    if rs == [] {
    } else {
      RestoredTokens(rs[..|rs| - 1]);
    }
  }

  /** What is saved of a mapping: its id, with the synthetic as its display. */
  lemma SavedMarks(v: VaultState, i: nat)
    requires v.Aligned() && i < |v.originalValues|
    ensures
      var r := ToRecords(v)[i];
      && RecordId(r) == v.tokenIds[i] && RecordDisplay(r) == v.syntheticKeys[i]
      && RecordToken(r) == XmlToken(v.tokenIds[i], v.syntheticKeys[i])
  {
  }

  // ----- Runs

  datatype Op = Add(e: Entry) | AddToken(e: Entry) | Drain(from: VaultState)

  function Apply(v: VaultState, op: Op): VaultState
    requires op.Drain? ==> op.from.Aligned()
  {
    match op
    case Add(e) => InsertNew(v, e)
    case AddToken(e) => AddWithToken(v, e)
    case Drain(from) => Merge(v, from)
  }

  function RunOps(v: VaultState, ops: seq<Op>): VaultState
    requires forall op :: op in ops && op.Drain? ==> op.from.Valid()
    decreases |ops|
  {
    if ops == [] then v
    else
      assert ops[0] in ops && (ops[0].Drain? ==> ops[0].from.Valid());
      RunOps(Apply(v, ops[0]), ops[1..])
  }

  /** Over every run of operations the vault stays consistent and no mapping is ever changed or lost. */
  lemma {:induction false} RunKeeps(v: VaultState, ops: seq<Op>)
    requires v.Valid()
    requires forall op :: op in ops && op.Drain? ==> op.from.Valid()
    ensures RunOps(v, ops).Valid() && Extends(v, RunOps(v, ops))
    decreases |ops|
  {
    hide VaultState.Zipped, VaultState.Distinct, VaultState.TrueMax, VaultState.Indexed, Extends, InsertNew,
      AddWithToken, Merge;
    if ops == [] {
      ExtendsReflexive(v);
    } else {
      assert ops[0] in ops && (ops[0].Drain? ==> ops[0].from.Valid());
      var w := Apply(v, ops[0]);
      match ops[0] {
        case Add(e) => InsertNewKeeps(v, e);
        case AddToken(e) => AddWithTokenKeeps(v, e);
        case Drain(from) => MergeIsUnion(v, from);
      }
      RunKeeps(w, ops[1..]);
      ExtendsTransitive(v, w, RunOps(w, ops[1..]));
    }
  }

  lemma ExtendsReflexive(v: VaultState)
    ensures Extends(v, v)
  {
  }

  // ----- Leftmost-longest replacement of keys by originals

  /** Index of the longest of the first `n` keys that is a prefix of `t`; the earliest one among equals. */
  function BestKey(keys: seq<Bytes>, t: Bytes, n: nat := |keys|): (r: Option<nat>)
    requires n <= |keys|
    ensures r.None? ==> forall j :: 0 <= j < n && keys[j] != [] ==> !(keys[j] <= t)
    ensures r.Some? ==> r.value < n && keys[r.value] != [] && keys[r.value] <= t
    ensures r.Some? ==> forall j :: 0 <= j < n && keys[j] <= t ==> |keys[j]| <= |keys[r.value]|
    ensures r.Some? ==> forall j :: 0 <= j < r.value && keys[j] <= t ==> |keys[j]| < |keys[r.value]|
  {
    if n == 0 then None
    else
      var r := BestKey(keys, t, n - 1);
      if keys[n - 1] != [] && keys[n - 1] <= t && (r.None? || |keys[n - 1]| > |keys[r.value]|)
      then Some(n - 1) else r
  }

  function Replace(v: VaultState, t: Bytes): Bytes
    requires v.Aligned()
    decreases |t|
  {
    if t == [] then []
    else
      match BestKey(v.syntheticKeys, t)
      case None => [t[0]] + Replace(v, t[1..])
      case Some(i) => v.originalValues[i] + Replace(v, t[|v.syntheticKeys[i]|..])
  }

  /** A match that ends before the text does is still the best match after the text is cut there. */
  lemma BestKeyCut(keys: seq<Bytes>, u: Bytes, y: Bytes)
    requires forall j :: 0 <= j < |keys| && keys[j] <= u + y ==> |keys[j]| <= |u|
    ensures BestKey(keys, u + y) == BestKey(keys, u)
  {
    assert forall j :: 0 <= j < |keys| ==> (keys[j] <= u + y <==> keys[j] <= u);
  }

  datatype Match = Match(start: nat, pattern: nat)

  /** The first place at or after `i` where some key matches, with the best key there. */
  function NextMatch(keys: seq<Bytes>, t: Bytes, i: nat): (r: Option<Match>)
    requires i <= |t|
    ensures r.Some? ==> i <= r.value.start && r.value.pattern < |keys| && keys[r.value.pattern] != []
    ensures r.Some? ==> r.value.start + |keys[r.value.pattern]| <= |t|
    decreases |t| - i
  {
    var best := BestKey(keys, t[i..]);
    if best.Some? then Some(Match(i, best.value))
    else if i == |t| then None
    else NextMatch(keys, t, i + 1)
  }

  lemma ReplaceCopy(v: VaultState, t: Bytes)
    requires v.Aligned() && t != [] && BestKey(v.syntheticKeys, t).None?
    ensures Replace(v, t) == [t[0]] + Replace(v, t[1..])
  {
  }

  lemma ReplaceKeyInFront(v: VaultState, t: Bytes, i: nat)
    requires v.Aligned() && t != [] && BestKey(v.syntheticKeys, t) == Some(i)
    ensures Replace(v, t) == v.originalValues[i] + Replace(v, t[|v.syntheticKeys[i]|..])
  {
  }

  /** Up to the next match everything is copied. */
  lemma {:induction false} ReplaceToMatch(v: VaultState, t: Bytes, i: nat)
    requires v.Aligned() && i <= |t| && NextMatch(v.syntheticKeys, t, i).Some?
    ensures var m := NextMatch(v.syntheticKeys, t, i).value;
      Replace(v, t[i..]) ==
      t[i..m.start] + v.originalValues[m.pattern] + Replace(v, t[m.start + |v.syntheticKeys[m.pattern]|..])
    decreases |t| - i
  {
    hide Replace, BestKey;
    var m := NextMatch(v.syntheticKeys, t, i).value;
    var o, n := v.originalValues[m.pattern], |v.syntheticKeys[m.pattern]|;
    var rest := Replace(v, t[m.start + n..]);
    if m.start == i {
      assert BestKey(v.syntheticKeys, t[i..]).Some?;
      ReplaceKeyInFront(v, t[i..], m.pattern);
      assert t[i..][n..] == t[i + n..];
      assert t[i..i] + o == o;
    } else {
      ReplaceCopy(v, t[i..]);
      assert t[i..][1..] == t[i + 1..];
      ReplaceToMatch(v, t, i + 1);
      assert t[i..m.start] + o == [t[i]] + (t[i + 1..m.start] + o);
      Assoc([t[i]], t[i + 1..m.start] + o, rest);
    }
  }

  /** Without a further match the rest is copied. */
  lemma {:induction false} ReplaceToEnd(v: VaultState, t: Bytes, i: nat)
    requires v.Aligned() && i <= |t| && NextMatch(v.syntheticKeys, t, i).None?
    ensures Replace(v, t[i..]) == t[i..]
    decreases |t| - i
  {
    hide BestKey;
    if i == |t| {
    } else {
      ReplaceCopy(v, t[i..]);
      assert t[i..][1..] == t[i + 1..];
      ReplaceToEnd(v, t, i + 1);
    }
  }
}
