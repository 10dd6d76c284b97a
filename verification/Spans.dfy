/** Choosing among overlapping detections. */
module Spans {
  import opened Bytes
  import opened Vault
  import opened Masking

  predicate Overlapping(a: Span, b: Span) {
    a.start < b.end && b.start < a.end
  }

  predicate Covers(a: Span, p: nat) {
    a.start <= p < a.end
  }

  /** Two spans overlap exactly if some position lies in both; spans that only touch do not. */
  lemma OverlapIsCommonPosition(a: Span, b: Span)
    requires a.start < a.end && b.start < b.end
    ensures Overlapping(a, b) <==> exists p :: Covers(a, p) && Covers(b, p)
  {
    var p := if a.start < b.start then b.start else a.start;
    if Overlapping(a, b) { assert Covers(a, p) && Covers(b, p); }
  }

  /** The candidate overlaps a span already there. */
  predicate SpansOverlap(existing: seq<Span>, candidate: Span) {
    exists y :: y in existing && Overlapping(y, candidate)
  }

  // ----- The stable sort both passes use

  ghost predicate Ordered(s: seq<Span>, rank: Span -> real) {
    forall i, j :: 0 <= i < j < |s| ==> rank(s[i]) <= rank(s[j])
  }

  /** Insert behind everything that does not rank higher, so that equals keep their order. */
  function InsertBy(s: seq<Span>, x: Span, rank: Span -> real): (r: seq<Span>)
    ensures multiset(r) == multiset(s) + multiset{x}
    ensures forall y :: y in r ==> y in s || y == x
  {
    if s == [] then [x]
    else
      var n := |s| - 1;
      assert s == s[..n] + [s[n]];
      if rank(s[n]) <= rank(x) then s + [x] else InsertBy(s[..n], x, rank) + [s[n]]
  }

  lemma OrderedPush(s: seq<Span>, x: Span, rank: Span -> real)
    requires Ordered(s, rank) && forall y :: y in s ==> rank(y) <= rank(x)
    ensures Ordered(s + [x], rank)
  {
    forall i | 0 <= i < |s| ensures rank((s + [x])[i]) <= rank(x) {
      assert s[i] in s;
    }
  }

  lemma OrderedFront(s: seq<Span>, rank: Span -> real)
    requires Ordered(s, rank) && s != []
    ensures Ordered(s[..|s| - 1], rank) && forall y :: y in s ==> rank(y) <= rank(s[|s| - 1])
  {
  }

  lemma {:induction false} InsertKeepsOrder(s: seq<Span>, x: Span, rank: Span -> real)
    requires Ordered(s, rank)
    ensures Ordered(InsertBy(s, x, rank), rank)
  {
    if s == [] {
    } else {
      var n := |s| - 1;
      OrderedFront(s, rank);
      hide Ordered;
      if rank(s[n]) > rank(x) {
        InsertKeepsOrder(s[..n], x, rank);
        assert forall y :: y in s[..n] ==> y in s;
        OrderedPush(InsertBy(s[..n], x, rank), s[n], rank);
      } else {
        OrderedPush(s, x, rank);
      }
    }
  }

  function SortBy(s: seq<Span>, rank: Span -> real): (r: seq<Span>)
    ensures multiset(r) == multiset(s)
  {
    if s == [] then []
    else
      var n := |s| - 1;
      assert s == s[..n] + [s[n]];
      InsertBy(SortBy(s[..n], rank), s[n], rank)
  }

  lemma {:induction false} SortOrders(s: seq<Span>, rank: Span -> real)
    ensures Ordered(SortBy(s, rank), rank)
  {
    if s == [] {
    } else {
      var n := |s| - 1;
      SortOrders(s[..n], rank);
      InsertKeepsOrder(SortBy(s[..n], rank), s[n], rank);
    }
  }

  /** The spans of one rank, in order. */
  function OfRank(s: seq<Span>, rank: Span -> real, r: real): seq<Span> {
    if s == [] then []
    else OfRank(s[..|s| - 1], rank, r) + if rank(s[|s| - 1]) == r then [s[|s| - 1]] else []
  }

  lemma OfRankPush(s: seq<Span>, x: Span, rank: Span -> real, r: real)
    ensures OfRank(s + [x], rank, r) == OfRank(s, rank, r) + if rank(x) == r then [x] else []
  {
    assert (s + [x])[..|s|] == s;
  }

  lemma {:induction false} InsertIsStable(s: seq<Span>, x: Span, rank: Span -> real, r: real)
    ensures OfRank(InsertBy(s, x, rank), rank, r) == OfRank(s, rank, r) + if rank(x) == r then [x] else []
  {
    hide OfRank;
    OfRankPush(s, x, rank, r);
    if s != [] {
      var n := |s| - 1;
      assert s == s[..n] + [s[n]];
      InsertIsStable(s[..n], x, rank, r);
      OfRankPush(s[..n], s[n], rank, r);
      OfRankPush(InsertBy(s[..n], x, rank), s[n], rank, r);
    } else {
      assert [] + [x] == [x];
    }
  }

  /** Spans of equal rank keep their order. */
  lemma {:induction false} SortIsStable(s: seq<Span>, rank: Span -> real, r: real)
    ensures OfRank(SortBy(s, rank), rank, r) == OfRank(s, rank, r)
  {
    if s == [] {
    } else {
      var n := |s| - 1;
      SortIsStable(s[..n], rank, r);
      InsertIsStable(SortBy(s[..n], rank), s[n], rank, r);
    }
  }

  lemma SameElements(s: seq<Span>, r: seq<Span>)
    requires multiset(s) == multiset(r)
    ensures forall x :: x in s <==> x in r
  {
    assert forall x :: x in s <==> x in multiset(s);
  }

  // ----- Greedy merge

  const BY_CONFIDENCE: Span -> real := (x: Span) => -x.confidence
  const BY_START: Span -> real := (x: Span) => x.start as real

  ghost predicate Disjoint(s: seq<Span>) {
    forall i, j :: 0 <= i < j < |s| ==> !Overlapping(s[i], s[j])
  }

  /** First come, first kept. */
  function Greedy(s: seq<Span>): (kept: seq<Span>)
    ensures multiset(kept) <= multiset(s)
  {
    if s == [] then []
    else
      var n := |s| - 1;
      assert s == s[..n] + [s[n]];
      var kept := Greedy(s[..n]);
      if SpansOverlap(kept, s[n]) then kept else kept + [s[n]]
  }

  lemma GreedyStep(s: seq<Span>, i: nat)
    requires i < |s|
    ensures
      var kept := Greedy(s[..i]);
      Greedy(s[..i + 1]) == if SpansOverlap(kept, s[i]) then kept else kept + [s[i]]
  {
    hide SpansOverlap;
    assert s[..i + 1][..i] == s[..i];
  }

  lemma {:induction false} GreedyGrows(s: seq<Span>, i: nat)
    requires i <= |s|
    ensures Greedy(s[..i]) <= Greedy(s)
    decreases |s| - i
  {
    hide Greedy, SpansOverlap;
    if i < |s| {
      GreedyStep(s, i);
      GreedyGrows(s, i + 1);
    } else {
      assert s[..i] == s;
    }
  }

  /** A span that is dropped overlaps one that came before it and is kept to the end. */
  lemma GreedyIsFirstCome(s: seq<Span>, i: nat)
    requires i < |s|
    ensures Greedy(s[..i]) <= Greedy(s)
    ensures s[i] in Greedy(s) || SpansOverlap(Greedy(s[..i]), s[i])
  {
    hide Greedy, SpansOverlap;
    GreedyGrows(s, i);
    GreedyGrows(s, i + 1);
    GreedyStep(s, i);
    if !SpansOverlap(Greedy(s[..i]), s[i]) { assert Greedy(s[..i + 1])[|Greedy(s[..i])|] == s[i]; }
  }

  /** What is kept does not overlap. */
  lemma {:induction false} GreedyIsDisjoint(s: seq<Span>)
    ensures Disjoint(Greedy(s))
  {
    if s == [] {
    } else {
      var n := |s| - 1;
      GreedyIsDisjoint(s[..n]);
      hide Overlapping;
    }
  }

  /** The regex tier's overlap filter: matches in pattern order, the first of an overlapping group kept. */
  method Detect(universal: seq<Span>, localized: seq<Span>) returns (spans: seq<Span>)
    ensures spans == SortBy(Greedy(universal + localized), BY_START)
    ensures Disjoint(spans) && Ordered(spans, BY_START)
  {
    hide SortBy, Disjoint, Ordered, SpansOverlap, Greedy, BY_START;
    spans := [];
    var all := universal + localized;
    NothingKept(all);
    for i := 0 to |universal|
      invariant spans == Greedy(all[..i])
    {
      GreedyStep(all, i);
      if !SpansOverlap(spans, universal[i]) { spans := spans + [universal[i]]; }
    }
    for i := 0 to |localized|
      invariant spans == Greedy(all[..|universal| + i])
    {
      GreedyStep(all, |universal| + i);
      if !SpansOverlap(spans, localized[i]) { spans := spans + [localized[i]]; }
    }
    assert all[..|all|] == all;
    GreedyIsDisjoint(all);
    SortOrders(spans, BY_START);
    SortKeepsDisjoint(spans, BY_START);
    spans := SortBy(spans, BY_START);
  }

  lemma NothingKept(all: seq<Span>)
    ensures Greedy(all[..0]) == []
  {
  }

  /** Every span of `all` is kept or beaten by a kept one that it overlaps. */
  ghost predicate Covered(all: seq<Span>, kept: seq<Span>) {
    forall x :: x in all ==> x in kept || exists y :: y in kept && Overlapping(y, x) && y.confidence >= x.confidence
  }

  /** The merge: first come, first kept in order of confidence, then in order of the text. */
  function Merged(a: seq<Span>, b: seq<Span>): seq<Span> {
    SortBy(Greedy(SortBy(a + b, BY_CONFIDENCE)), BY_START)
  }

  /** The kept spans come from the input, do not overlap, stand in order, and beat whatever was dropped. */
  method MergeSpans(a: seq<Span>, b: seq<Span>) returns (out: seq<Span>)
    ensures out == Merged(a, b)
    ensures multiset(out) <= multiset(a + b)
    ensures Disjoint(out) && Ordered(out, BY_START)
    ensures Covered(a + b, out)
  {
    hide InsertBy, SortBy, Greedy, Covered, Disjoint, Ordered, SpansOverlap, BY_CONFIDENCE, BY_START;
    var all := SortBy(a + b, BY_CONFIDENCE);
    SortOrders(a + b, BY_CONFIDENCE);
    SameElements(a + b, all);
    var kept: seq<Span> := [];
    NothingYet(all);
    NothingKept(all);
    for i := 0 to |all|
      invariant kept == Greedy(all[..i])
      invariant Disjoint(kept) && Covered(all[..i], kept)
    {
      GreedyStep(all, i);
      if !SpansOverlap(kept, all[i]) {
        KeepOne(all, i, kept);
        kept := kept + [all[i]];
      } else {
        DropOne(all, i, kept);
      }
    }
    assert all[..|all|] == all;
    out := SortBy(kept, BY_START);
    SortOrders(kept, BY_START);
    SameElements(kept, out);
    CoveredPermutes(all, kept, a + b, out);
    SortKeepsDisjoint(kept, BY_START);
  }

  lemma NothingYet(all: seq<Span>)
    ensures Disjoint([]) && Covered(all[..0], [])
  {
  }

  lemma CoveredPermutes(all: seq<Span>, kept: seq<Span>, all': seq<Span>, kept': seq<Span>)
    requires Covered(all, kept)
    requires (forall x :: x in all' <==> x in all) && (forall x :: x in kept <==> x in kept')
    ensures Covered(all', kept')
  {
  }

  lemma KeepOne(all: seq<Span>, i: nat, kept: seq<Span>)
    requires i < |all| && Disjoint(kept) && Covered(all[..i], kept)
    requires !SpansOverlap(kept, all[i])
    ensures Disjoint(kept + [all[i]]) && Covered(all[..i + 1], kept + [all[i]])
  {
    var more := kept + [all[i]];
    assert more[|kept|] == all[i];
    forall x | x in all[..i + 1] && x !in more
      ensures exists y :: y in more && Overlapping(y, x) && y.confidence >= x.confidence
    {
      assert x in all[..i];
      var y :| y in kept && Overlapping(y, x) && y.confidence >= x.confidence;
      assert y in more;
    }
  }

  lemma DropOne(all: seq<Span>, i: nat, kept: seq<Span>)
    requires i < |all| && Ordered(all, BY_CONFIDENCE) && Covered(all[..i], kept)
    requires multiset(kept) <= multiset(all[..i])
    requires SpansOverlap(kept, all[i])
    ensures Covered(all[..i + 1], kept)
  {
    var y :| y in kept && Overlapping(y, all[i]);
    assert y in multiset(all[..i]);
    var j :| 0 <= j < i && all[j] == y;
    assert BY_CONFIDENCE(all[j]) <= BY_CONFIDENCE(all[i]);
    forall x | x in all[..i + 1] && x !in kept
      ensures exists z :: z in kept && Overlapping(z, x) && z.confidence >= x.confidence
    {
      if x != all[i] { assert x in all[..i]; }
    }
  }

  lemma OfRankAppend(s: seq<Span>, t: seq<Span>, rank: Span -> real, r: real)
    ensures OfRank(s + t, rank, r) == OfRank(s, rank, r) + OfRank(t, rank, r)
    decreases |t|
  {
    if t == [] {
      assert s + t == s;
    } else {
      var n := |t| - 1;
      assert (s + t)[..|s| + n] == s + t[..n];
      OfRankAppend(s, t[..n], rank, r);
    }
  }

  lemma {:induction false} OfRankHas(s: seq<Span>, rank: Span -> real, r: real, x: Span)
    ensures x in OfRank(s, rank, r) <==> x in s && rank(x) == r
    decreases |s|
  {
    if s == [] {
    } else {
      OfRankHas(s[..|s| - 1], rank, r, x);
      assert s == s[..|s| - 1] + [s[|s| - 1]];
    }
  }

  /** What stands before an element of `a` among its equals comes from `a` too. */
  lemma EqualsBefore(a: seq<Span>, b: seq<Span>, rank: Span -> real, front: seq<Span>, x: Span, y: Span)
    requires x in a && front <= SortBy(a + b, rank) && x !in front && y in front && rank(y) == rank(x)
    ensures y in a
  {
    var r, all := rank(x), SortBy(a + b, rank);
    var back := all[|front|..];
    assert all == front + back;
    SortIsStable(a + b, rank, r);
    OfRankAppend(a, b, rank, r);
    OfRankAppend(front, back, rank, r);
    OfRankHas(front, rank, r, x);
    OfRankHas(front, rank, r, y);
    OfRankHas(a, rank, r, x);
    OfRankHas(a, rank, r, y);
    hide OfRank, SortBy;
    SharedPrefix(OfRank(front, rank, r), OfRank(back, rank, r), OfRank(a, rank, r), OfRank(b, rank, r), x, y);
  }

  lemma SharedPrefix(p: seq<Span>, q: seq<Span>, s: seq<Span>, t: seq<Span>, x: Span, y: Span)
    requires p + q == s + t && x in s && x !in p && y in p
    ensures y in s
  {
    OneIsPrefix(p, q, s, t);
  }

  lemma OneIsPrefix(p: seq<Span>, q: seq<Span>, s: seq<Span>, t: seq<Span>)
    requires p + q == s + t
    ensures if |p| <= |s| then p == s[..|p|] else s == p[..|s|]
  {
    var all := p + q;
    assert all[..|p|] == p && all[..|s|] == s;
  }

  /** Where a span first stands. */
  lemma {:induction false} FirstAt(s: seq<Span>, x: Span) returns (i: nat)
    requires x in s
    ensures i < |s| && s[i] == x && x !in s[..i]
    decreases |s|
  {
    var n := |s| - 1;
    if x in s[..n] {
      i := FirstAt(s[..n], x);
      assert s[..n][..i] == s[..i];
    } else {
      i := n;
      assert s == s[..n] + [s[n]];
    }
  }

  predicate Outranks(y: Span, x: Span, a: seq<Span>) {
    y.confidence > x.confidence || (y.confidence == x.confidence && y in a)
  }

  /** Of two tiers the first wins a tie: its spans only give way to surer ones, or to earlier ones of its own. */
  lemma FirstTierWinsTies(a: seq<Span>, b: seq<Span>, x: Span)
    requires x in a && x !in Merged(a, b)
    ensures exists y :: y in Merged(a, b) && Overlapping(y, x) && Outranks(y, x, a)
  {
    var all := SortBy(a + b, BY_CONFIDENCE);
    SortOrders(a + b, BY_CONFIDENCE);
    SameElements(a + b, all);
    SortOrders(Greedy(all), BY_START);
    SameElements(Greedy(all), Merged(a, b));
    hide Greedy, SortBy, Merged, Ordered, Overlapping;
    var i := FirstAt(all, x);
    var j := DroppedFor(all, i);
    var y := all[j];
    ConfidenceOrder(all, j, i);
    assert y in all[..i];
    if y.confidence == x.confidence { EqualsBefore(a, b, BY_CONFIDENCE, all[..i], x, y); }
    assert Outranks(y, x, a);
  }

  lemma ConfidenceOrder(all: seq<Span>, j: nat, i: nat)
    requires j < i < |all| && Ordered(all, BY_CONFIDENCE)
    ensures all[j].confidence >= all[i].confidence
    ensures all[j].confidence == all[i].confidence ==> BY_CONFIDENCE(all[j]) == BY_CONFIDENCE(all[i])
  {
    assert BY_CONFIDENCE(all[j]) <= BY_CONFIDENCE(all[i]);
  }

  /** For a span that is dropped there is one before it that is kept. */
  lemma DroppedFor(s: seq<Span>, i: nat) returns (j: nat)
    requires i < |s| && s[i] !in Greedy(s)
    ensures j < i && s[j] in Greedy(s) && Overlapping(s[j], s[i])
  {
    GreedyIsFirstCome(s, i);
    hide Greedy, Overlapping;
    var front := Greedy(s[..i]);
    var y :| y in front && Overlapping(y, s[i]);
    assert y in multiset(front) && y in multiset(s[..i]);
    j :| 0 <= j < i && s[j] == y;
  }

  lemma {:induction false} InsertKeepsDisjoint(s: seq<Span>, x: Span, rank: Span -> real)
    requires Disjoint(s) && forall y :: y in s ==> !Overlapping(y, x)
    ensures Disjoint(InsertBy(s, x, rank))
  {
    if s == [] {
    } else {
      var n := |s| - 1;
      if rank(s[n]) > rank(x) {
        var r := InsertBy(s[..n], x, rank);
        InsertKeepsDisjoint(s[..n], x, rank);
        forall i | 0 <= i < |r| ensures !Overlapping(r[i], s[n]) {
          assert r[i] in r;
          assert s[n] in s;
        }
      }
    }
  }

  /** Sorting keeps spans disjoint. */
  lemma {:induction false} SortKeepsDisjoint(s: seq<Span>, rank: Span -> real)
    requires Disjoint(s)
    ensures Disjoint(SortBy(s, rank))
  {
    if s == [] {
    } else {
      var n := |s| - 1;
      SortKeepsDisjoint(s[..n], rank);
      SameElements(s[..n], SortBy(s[..n], rank));
      InsertKeepsDisjoint(SortBy(s[..n], rank), s[n], rank);
    }
  }

  // ----- Consequences for masking

  /** Spans one after the other inside the text, from `last` on. */
  ghost predicate InLine(text: Bytes, spans: seq<Span>, last: nat)
    decreases |spans|
  {
    spans == [] || (last <= spans[0].start <= spans[0].end <= |text| && InLine(text, spans[1..], spans[0].end))
  }

  /** What the merge keeps of nonempty spans inside the text is in line. */
  lemma {:induction false} MergedAreInLine(text: Bytes, out: seq<Span>, i: nat, last: nat)
    requires Disjoint(out) && Ordered(out, BY_START) && i <= |out|
    requires forall x :: x in out ==> x.start < x.end <= |text|
    requires i < |out| ==> last <= out[i].start
    ensures InLine(text, out[i..], last)
    decreases |out| - i
  {
    if i == |out| {
    } else {
      assert out[i] in out;
      if i + 1 < |out| {
        assert out[i + 1] in out;
        assert BY_START(out[i]) <= BY_START(out[i + 1]);
        assert !Overlapping(out[i], out[i + 1]);
      }
      MergedAreInLine(text, out, i + 1, out[i].end);
      assert out[i..][1..] == out[i + 1..];
    }
  }

  /** The text with each span exchanged for its replacement. */
  function Weave(text: Bytes, spans: seq<Span>, replacements: seq<Bytes>, last: nat): Bytes
    requires |spans| == |replacements| && last <= |text|
    requires forall sp :: sp in spans ==> sp.start <= sp.end <= |text|
    decreases |spans|
  {
    if spans == [] then text[last..]
    else if spans[0].start < last then []
    else
      text[last..spans[0].start] + (replacements[0] + Weave(text, spans[1..], replacements[1..], spans[0].end))
  }

  /** The vault when the `i`-th span is reached: what masking only the spans before it leaves. */
  function AtTurn(v: VaultState, text: Bytes, spans: seq<Span>, last: nat, index: nat, src: Sources, i: nat): VaultState
    requires last <= |text| && i <= |spans|
    requires forall sp :: sp in spans ==> sp.start <= sp.end
  {
    Mask(v, text, spans[..i], last, index, src).vault
  }

  /** A span whose text is a synthetic when it is reached stays; any other one becomes a token. */
  function Replacement(turn: VaultState, text: Bytes, sp: Span, index: nat, src: Sources): Bytes
    requires sp.start <= sp.end <= |text|
  {
    var original := text[sp.start..sp.end];
    if original in turn.syntheticKeys then original
    else XmlToken(Base62Digits(src.hash(index), 8), Display(turn, original, sp.kind, src))
  }

  /** The vault behind the first span. */
  function NextVault(v: VaultState, text: Bytes, sp: Span, index: nat, src: Sources): VaultState
    requires sp.start <= sp.end <= |text|
  {
    var original := text[sp.start..sp.end];
    if original in v.syntheticKeys then v else Learn(v, original, sp, Base62Digits(src.hash(index), 8), src)
  }

  lemma MaskFirst(v: VaultState, text: Bytes, spans: seq<Span>, last: nat, index: nat, src: Sources)
    requires last <= |text| && spans != [] && forall sp :: sp in spans ==> sp.start <= sp.end
    requires last <= spans[0].start && spans[0].end <= |text|
    ensures
      var sp := spans[0];
      var m := Mask(NextVault(v, text, sp, index, src), text, spans[1..], sp.end, index + 1, src);
      Mask(v, text, spans, last, index, src) ==
      Masked(text[last..sp.start] + (Replacement(v, text, sp, index, src) + m.text), m.vault)
  {
    hide Learn, Base62Digits, Display, XmlToken;
  }

  lemma TurnOfFirst(v: VaultState, text: Bytes, spans: seq<Span>, last: nat, index: nat, src: Sources)
    requires last <= |text| && forall sp :: sp in spans ==> sp.start <= sp.end
    ensures AtTurn(v, text, spans, last, index, src, 0) == v
  {
    assert spans[..0] == [];
  }

  /** The turns of the other spans are those of the pass that goes on behind the first one. */
  lemma TurnOfRest(v: VaultState, text: Bytes, spans: seq<Span>, last: nat, index: nat, src: Sources, i: nat)
    requires last <= |text| && 0 < i <= |spans| && forall sp :: sp in spans ==> sp.start <= sp.end
    requires last <= spans[0].start && spans[0].end <= |text|
    ensures
      var sp := spans[0];
      AtTurn(v, text, spans, last, index, src, i) ==
      AtTurn(NextVault(v, text, sp, index, src), text, spans[1..], sp.end, index + 1, src, i - 1)
  {
    hide NextVault, Mask, Replacement;
    assert spans[..i][0] == spans[0] && spans[..i][1..] == spans[1..][..i - 1];
    MaskFirst(v, text, spans[..i], last, index, src);
  }

  /** Every span's replacement, as the vault at its turn says. */
  function Replacements(v: VaultState, text: Bytes, spans: seq<Span>, last: nat, index: nat, src: Sources): seq<Bytes>
    requires last <= |text| && forall sp :: sp in spans ==> sp.start <= sp.end <= |text|
  {
    seq(|spans|, i requires 0 <= i < |spans| =>
      Replacement(AtTurn(v, text, spans, last, index, src, i), text, spans[i], index + i, src))
  }

  lemma ReplacementsCons(v: VaultState, text: Bytes, spans: seq<Span>, last: nat, index: nat, src: Sources)
    requires last <= |text| && spans != [] && forall sp :: sp in spans ==> sp.start <= sp.end <= |text|
    requires last <= spans[0].start
    ensures
      var sp := spans[0];
      var w := NextVault(v, text, sp, index, src);
      Replacements(v, text, spans, last, index, src) ==
      [Replacement(v, text, sp, index, src)] + Replacements(w, text, spans[1..], sp.end, index + 1, src)
  {
    hide Mask, Replacement, NextVault, AtTurn;
    var sp := spans[0];
    var w := NextVault(v, text, sp, index, src);
    TurnOfFirst(v, text, spans, last, index, src);
    forall i | 0 < i < |spans|
      ensures AtTurn(v, text, spans, last, index, src, i) == AtTurn(w, text, spans[1..], sp.end, index + 1, src, i - 1)
    {
      TurnOfRest(v, text, spans, last, index, src, i);
    }
  }

  /**
   * For spans in line the masking pass skips none, every byte outside them is kept in its place, and each span is
   * replaced as the vault at its turn says.
   */
  lemma {:induction false} MaskingSkipsNone(v: VaultState, text: Bytes, spans: seq<Span>, last: nat, index: nat,
                                            src: Sources)
    requires last <= |text| && InLine(text, spans, last)
    requires forall sp :: sp in spans ==> sp.start <= sp.end <= |text|
    ensures Mask(v, text, spans, last, index, src).text ==
      Weave(text, spans, Replacements(v, text, spans, last, index, src), last)
    decreases |spans|
  {
    if spans == [] {
    } else {
      hide Mask, Replacement, NextVault, Replacements;
      var sp := spans[0];
      MaskFirst(v, text, spans, last, index, src);
      ReplacementsCons(v, text, spans, last, index, src);
      MaskingSkipsNone(NextVault(v, text, sp, index, src), text, spans[1..], sp.end, index + 1, src);
    }
  }

  /** What the merge keeps comes from the input and is disjoint and in order. */
  lemma MergedShape(a: seq<Span>, b: seq<Span>)
    ensures Disjoint(Merged(a, b)) && Ordered(Merged(a, b), BY_START)
    ensures forall x :: x in Merged(a, b) ==> x in a || x in b
  {
    hide InsertBy, SortBy, Greedy, Disjoint, Ordered, SpansOverlap, BY_CONFIDENCE, BY_START;
    var all := SortBy(a + b, BY_CONFIDENCE);
    var kept := Greedy(all);
    SameElements(a + b, all);
    SameElements(kept, Merged(a, b));
    forall x | x in kept ensures x in all {
      assert x in multiset(kept);
    }
    GreedyIsDisjoint(all);
    SortOrders(kept, BY_START);
    SortKeepsDisjoint(kept, BY_START);
  }

  /**
   * Merging, then masking: for nonempty spans inside the text, the merged spans are all masked, each kept exactly if
   * it is a synthetic at its turn and else exchanged for its token, and every byte outside them stays in its place.
   */
  lemma MergedSpansAreMasked(v: VaultState, text: Bytes, a: seq<Span>, b: seq<Span>, out: seq<Span>, index: nat,
                             src: Sources)
    requires out == Merged(a, b) && forall x :: x in a || x in b ==> x.start < x.end <= |text|
    ensures forall sp :: sp in out ==> sp.start <= sp.end <= |text|
    ensures Mask(v, text, out, 0, index, src).text == Weave(text, out, Replacements(v, text, out, 0, index, src), 0)
  {
    hide Merged, Disjoint, Ordered, InLine, Mask, Weave, BY_START, Replacements;
    MergedShape(a, b);
    MergedAreInLine(text, out, 0, 0);
    assert out[0..] == out;
    MaskingSkipsNone(v, text, out, 0, index, src);
  }
}
