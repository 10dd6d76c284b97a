/** Which part of the rewritten buffer may leave, and why no key is ever cut by that. */
module Holdback {
  import opened Bytes
  import opened Vault
  import opened Unmask

  type Pair = (byte, byte)

  /** First two bytes of every key that has two. */
  function KeyPrefixes(keys: seq<Bytes>): set<Pair> {
    set k | k in keys && |k| >= 2 :: (k[0], k[1])
  }

  /** Byte offsets at which UTF-8 text may be split. */
  predicate IsCharBoundary(s: Bytes, p: nat)
    requires p <= |s|
  {
    p == 0 || p == |s| || !(0x80 <= s[p] < 0xC0)
  }

  /** The largest boundary at or below `p`. */
  function CharBoundary(s: Bytes, p: nat): (r: nat)
    requires p <= |s|
    ensures r <= p && IsCharBoundary(s, r)
    ensures forall q :: r < q <= p ==> !IsCharBoundary(s, q)
  {
    if IsCharBoundary(s, p) then p else CharBoundary(s, p - 1)
  }

  /** Start of the last opening tag, if no closing tag follows it. */
  function OpenTagPos(t: Bytes): (r: Option<nat>)
    ensures r.Some? ==> r.value + 4 <= |t| && OPEN <= t[r.value..]
  {
    match FindLast(t, OPEN)
    case None => None
    case Some(p) => if Find(t[p..], CLOSE).Some? then None else Some(p)
  }

  /** The last opening tag of the text stands at `p`, and no closing tag at or behind it. */
  ghost predicate StaysOpen(t: Bytes, p: int) {
    && 0 <= p <= |t| && OPEN <= t[p..]
    && (forall j :: p < j <= |t| ==> !(OPEN <= t[j..]))
    && (forall j :: p <= j <= |t| ==> !(CLOSE <= t[j..]))
  }

  /** Exactly a last opening tag without a closing tag behind it is held back. */
  lemma OpenTagPosIff(t: Bytes, p: nat)
    ensures OpenTagPos(t) == Some(p) <==> StaysOpen(t, p)
  {
    hide Find;
    var last := FindLast(t, OPEN);
    if last.Some? { NoneBehind(t, last.value); }
    if StaysOpen(t, p) { assert last.Some? && last.value == p; }
  }

  lemma NoneBehind(t: Bytes, p: nat)
    requires p <= |t|
    ensures Find(t[p..], CLOSE).None? <==> forall j :: p <= j <= |t| ==> !(CLOSE <= t[j..])
  {
    var r := Find(t[p..], CLOSE);
    if r.Some? {
      assert t[p..][r.value..] == t[p + r.value..];
    } else {
      forall j | p <= j <= |t| ensures !(CLOSE <= t[j..]) {
        assert t[p..][j - p..] == t[j..];
      }
    }
  }

  /** Some key may start in this tail: two bytes that open a key, or a last byte that does. */
  predicate HasTrigger(tail: Bytes, prefixes: set<Pair>) {
    || (exists i :: 0 <= i < |tail| - 1 && (tail[i], tail[i + 1]) in prefixes)
    || (tail != [] && exists p :: p in prefixes && p.0 == tail[|tail| - 1])
  }

  /** Exactly a tail in which the first two bytes of some key stand, or whose last byte begins one, is a trigger. */
  lemma TriggersAreKeyStarts(tail: Bytes, keys: seq<Bytes>)
    ensures HasTrigger(tail, KeyPrefixes(keys)) <==> exists k :: k in keys && StartsIn(k, tail)
  {
    var prefixes := KeyPrefixes(keys);
    forall k | k in keys && StartsIn(k, tail) ensures HasTrigger(tail, prefixes) {
      assert (k[0], k[1]) in prefixes;
      if Factor(k[..2], tail) {
        var i :| 0 <= i <= |tail| && k[..2] <= tail[i..];
        assert tail[i..][0] == tail[i] == k[0] && tail[i..][1] == tail[i + 1] == k[1];
      } else {
        assert (k[0], k[1]).0 == tail[|tail| - 1];
      }
    }
    if HasTrigger(tail, prefixes) { TriggerHasKey(tail, keys); }
  }

  predicate StartsIn(k: Bytes, tail: Bytes) {
    |k| >= 2 && (Factor(k[..2], tail) || (tail != [] && tail[|tail| - 1] == k[0]))
  }

  lemma TriggerHasKey(tail: Bytes, keys: seq<Bytes>)
    requires HasTrigger(tail, KeyPrefixes(keys))
    ensures exists k :: k in keys && StartsIn(k, tail)
  {
    var prefixes := KeyPrefixes(keys);
    if i :| 0 <= i < |tail| - 1 && (tail[i], tail[i + 1]) in prefixes {
      var k :| k in keys && |k| >= 2 && (k[0], k[1]) == (tail[i], tail[i + 1]);
      assert k[..2] <= tail[i..];
      assert StartsIn(k, tail);
    } else {
      var p :| p in prefixes && p.0 == tail[|tail| - 1];
      var k :| k in keys && |k| >= 2 && (k[0], k[1]) == p;
      assert StartsIn(k, tail);
    }
  }

  function SafeFlushLen(t: Bytes, maxKeyLen: nat, prefixes: set<Pair>): (r: nat)
    ensures r <= |t|
  {
    match OpenTagPos(t)
    case Some(p) => p
    case None =>
      var tailStart := if |t| > maxKeyLen then CharBoundary(t, |t| - maxKeyLen) else 0;
      if HasTrigger(t[tailStart..], prefixes) then tailStart else |t|
  }

  /** A key that runs over an opening tag contains it. */
  lemma TagInsideKey(t: Bytes, c: Bytes, k: Bytes, i: nat, p: nat)
    requires i < p && p + 4 <= |t| && OPEN <= t[p..]
    ensures k <= (t + c)[i..] && i + |k| > |t| ==> Factor(OPEN, k)
  {
    if k <= (t + c)[i..] && i + |k| > |t| {
      assert forall m :: 0 <= m < 4 ==> k[p - i..][m] == (t + c)[i..][p - i + m] == t[p..][m];
      assert OPEN <= k[p - i..];
    }
  }

  /** The visible part of a key that runs past the end of the text is a trigger. */
  lemma PartialKeyTriggers(t: Bytes, c: Bytes, k: Bytes, i: nat, s: nat, prefixes: set<Pair>)
    requires s <= i < |t|
    requires |k| >= 2 ==> (k[0], k[1]) in prefixes
    ensures k <= (t + c)[i..] && i + |k| > |t| ==> HasTrigger(t[s..], prefixes)
  {
    if k <= (t + c)[i..] && i + |k| > |t| {
      var tail := t[s..];
      assert k[0] == (t + c)[i..][0] == tail[i - s];
      if i + 1 < |t| {
        assert k[1] == (t + c)[i..][1] == tail[i - s + 1];
        assert (tail[i - s], tail[i - s + 1]) in prefixes;
      } else {
        assert (k[0], k[1]).0 == tail[|tail| - 1];
      }
    }
  }

  /**
   * Holdback safety: whatever follows, a key occurrence that starts before the flush point, or before any
   * earlier split point, was already complete in the text.
   */
  lemma HoldbackSafe(t: Bytes, c: Bytes, keys: seq<Bytes>, maxKeyLen: nat, k: Bytes, i: nat)
    requires |k| <= maxKeyLen && !Factor(OPEN, k)
    requires k in keys && i < SafeFlushLen(t, maxKeyLen, KeyPrefixes(keys)) && k <= (t + c)[i..]
    ensures i + |k| <= |t|
  {
    hide Find, FindLast;
    var prefixes := KeyPrefixes(keys);
    match OpenTagPos(t)
    case Some(p) =>
      TagInsideKey(t, c, k, i, p);
    case None =>
      var s := if |t| > maxKeyLen then CharBoundary(t, |t| - maxKeyLen) else 0;
      if s <= i {
        PartialKeyTriggers(t, c, k, i, s, prefixes);
      }
  }
}
