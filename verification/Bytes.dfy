/** Byte strings: the text, key and wire representation shared by every model. */
module Bytes {

  datatype Option<+T> = None | Some(value: T)

  type byte = b: int | 0 <= b < 256
  type Bytes = seq<byte>

  const CR: byte := 13
  const LF: byte := 10
  const LT: byte := 60 // '<'
  const CRLF: Bytes := [13, 10]

  /** The bytes of plain text. */
  function Spelt(s: string): (r: Bytes)
    ensures |r| == |s|
  {
    seq(|s|, i requires 0 <= i < |s| => if s[i] as int < 0x80 then s[i] as int else 63)
  }

  /** Concatenation of a list of byte strings. */
  function Flatten(parts: seq<Bytes>): Bytes {
    if parts == [] then [] else parts[0] + Flatten(parts[1..])
  }

  lemma {:induction false} FlattenAppend(a: seq<Bytes>, b: seq<Bytes>)
    ensures Flatten(a + b) == Flatten(a) + Flatten(b)
  {
    if a == [] {
      assert a + b == b;
    } else {
      assert (a + b)[1..] == a[1..] + b;
      FlattenAppend(a[1..], b);
    }
  }

  lemma FlattenOne(a: Bytes)
    ensures Flatten([a]) == a
  {
    assert [a][1..] == [] && a + [] == a;
  }

  lemma FlattenTwo(a: Bytes, b: Bytes)
    ensures Flatten([a, b]) == a + b
  {
    FlattenOne(b);
    assert [a, b][1..] == [b];
  }

  lemma Assoc(a: Bytes, b: Bytes, c: Bytes)
    ensures a + (b + c) == (a + b) + c
  {
  }

  lemma Regroup(a: Bytes, b: Bytes, c: Bytes, d: Bytes, e: Bytes)
    ensures a + ((b + (c + d)) + e) == (a + b + c) + (d + e)
  {
  }

  lemma DropConcat(a: Bytes, b: Bytes, n: nat)
    requires n <= |a|
    ensures (a + b)[n..] == a[n..] + b
  {
  }

  lemma SuffixCons(a: Bytes, i: nat)
    requires i < |a|
    ensures a[i..] == [a[i]] + a[i + 1..]
  {
  }

  /** Moving one byte from the rest to the front. */
  lemma MoveByte(a: Bytes, i: nat)
    requires i < |a|
    ensures a[..i + 1] == a[..i] + [a[i]] && a[i..] != [] && a[i..][0] == a[i] && a[i..][1..] == a[i + 1..]
  {
  }

  lemma EmptyFront(a: Bytes)
    ensures [] + a == a
  {
  }

  lemma HeadTail(a: Bytes, b: Bytes)
    requires a != []
    ensures a + b == [a[0]] + (a[1..] + b) && (a + b)[0] == a[0] && (a + b)[1..] == a[1..] + b
  {
  }

  /** Two prefixes of one string are comparable. */
  lemma PrefixOfConcat(k: Bytes, a: Bytes, y: Bytes)
    ensures k <= a + y ==> k <= a || a <= k
    ensures k <= a ==> k <= a + y
    ensures k <= a + y && |k| > |a| ==> k[|a|] == y[0]
  {
  }

  lemma PrefixOfPart(q: Bytes, k: Bytes, i: nat, m: nat)
    requires i <= m <= |k|
    ensures q <= k[i..m] ==> q <= k[i..] && |q| <= m - i
  {
  }

  /** No occurrence of `w` starts before `n`. */
  ghost predicate NoneBefore(t: Bytes, w: Bytes, n: nat) {
    forall j :: 0 <= j < n && j <= |t| ==> !(w <= t[j..])
  }

  /** Offset of the first occurrence of `w` in `t`. */
  function Find(t: Bytes, w: Bytes): (r: Option<nat>)
    ensures r.Some? ==> r.value + |w| <= |t| && w <= t[r.value..] && NoneBefore(t, w, r.value)
    ensures r.None? ==> NoneBefore(t, w, |t| + 1)
  {
    if w <= t then
      assert t[0..] == t; Some(0)
    else if t == [] then
      None
    else
      var r := Find(t[1..], w);
      assert forall j :: 0 < j <= |t| ==> t[j..] == t[1..][j - 1..];
      if r.None? then None else Some(r.value + 1)
  }

  /** An occurrence with nothing before it is the one `Find` returns. */
  lemma FindIs(t: Bytes, w: Bytes, i: nat)
    requires i <= |t| && w <= t[i..]
    requires forall j :: 0 <= j < i ==> !(w <= t[j..])
    ensures Find(t, w) == Some(i)
  {
  }

  /** A byte that does not occur before is found where it stands. */
  lemma SingleAt(u: Bytes, x: byte, y: Bytes)
    requires x !in u
    ensures Find(u + ([x] + y), [x]) == Some(|u|)
  {
    hide Find;
    var t := u + ([x] + y);
    assert t[|u|..] == [x] + y;
    forall j | 0 <= j < |u| ensures !([x] <= t[j..]) {
      assert t[j..][0] == t[j] == u[j];
    }
    FindIs(t, [x], |u|);
  }

  lemma NoByteBefore(t: Bytes, x: byte, n: nat)
    requires n <= |t| && NoneBefore(t, [x], n)
    ensures x !in t[..n]
  {
    forall j | 0 <= j < n ensures t[j] != x {
      assert t[j..] == [t[j]] + t[j + 1..];
    }
  }

  /** What is found is the byte, and it is not in front of there. */
  lemma FoundByte(t: Bytes, x: byte)
    ensures
      match Find(t, [x])
      case None => x !in t
      case Some(p) => t[p] == x && x !in t[..p]
  {
    var r := Find(t, [x]);
    if r.Some? {
      assert t[r.value..][0] == x;
      NoByteBefore(t, x, r.value);
    } else {
      NoByteBefore(t, x, |t|);
      assert t[..|t|] == t;
    }
  }

  lemma NoSingle(u: Bytes, x: byte)
    requires x !in u
    ensures Find(u, [x]).None?
  {
    forall j | 0 <= j <= |u| ensures !([x] <= u[j..]) {
      if j < |u| { assert u[j..][0] == u[j]; }
    }
  }

  lemma PrefixOfSlice(t: Bytes, c: Bytes, w: Bytes, j: nat)
    requires j <= |t|
    ensures w <= t[j..] ==> w <= (t + c)[j..]
    ensures j + |w| <= |t| && w <= (t + c)[j..] ==> w <= t[j..]
  {
    assert (t + c)[j..] == t[j..] + c;
  }

  /** The first occurrence does not move when the text is extended. */
  lemma FindStable(t: Bytes, c: Bytes, w: Bytes)
    requires Find(t, w).Some?
    ensures Find(t + c, w) == Find(t, w)
  {
    var i := Find(t, w).value;
    PrefixOfSlice(t, c, w, i);
    forall j | 0 <= j < i ensures !(w <= (t + c)[j..]) {
      PrefixOfSlice(t, c, w, j);
    }
    FindIs(t + c, w, i);
  }

  /** An occurrence that only an extension has reaches past the text. */
  lemma FindBeyond(t: Bytes, c: Bytes, w: Bytes)
    requires Find(t, w).None? && Find(t + c, w).Some?
    ensures Find(t + c, w).value + |w| > |t|
  {
    var q := Find(t + c, w).value;
    if q <= |t| { PrefixOfSlice(t, c, w, q); }
  }

  /** A part of a text without `w` is without `w`. */
  lemma FindNoneInPart(t: Bytes, w: Bytes, i: nat, j: nat)
    requires i <= j <= |t| && Find(t, w).None?
    ensures Find(t[i..j], w).None?
  {
    var u := t[i..j];
    forall p | 0 <= p <= |u| ensures !(w <= u[p..]) {
      assert u[p..] + t[j..] == t[i + p..];
    }
  }

  /** `a` occurs somewhere inside `b`. */
  predicate Factor(a: Bytes, b: Bytes) {
    exists i :: 0 <= i <= |b| && a <= b[i..]
  }

  /** `a` occurs in `b` and ends before `b` does. */
  predicate Inside(a: Bytes, b: Bytes) {
    exists i :: 0 <= i < |b| - |a| && a <= b[i..]
  }

  /** A nonempty proper suffix of `a` is a prefix of `b`. */
  predicate Overlap(a: Bytes, b: Bytes) {
    exists j :: 0 < j < |a| && a[j..] <= b
  }
}
