/** Valid UTF-8 against its definition in section 3 of RFC 3629: the spellings of Unicode scalar values. */
module Utf8 {
  import opened Bytes
  import opened Text

  predicate Scalar(c: nat) {
    c < 0x110000 && !(0xD800 <= c < 0xE000)
  }

  /** The bytes of one scalar value. */
  function Spelling(c: nat): Bytes
    requires Scalar(c)
  {
    if c < 0x80 then [c]
    else
      var q := c / 64;
      if c < 0x800 then [0xC0 + q, 0x80 + c % 64]
      else
        var p := q / 64;
        if c < 0x10000 then [0xE0 + p, 0x80 + q % 64, 0x80 + c % 64]
        else [0xF0 + p / 64, 0x80 + p % 64, 0x80 + q % 64, 0x80 + c % 64]
  }

  predicate AllScalar(cs: seq<nat>) {
    forall i :: 0 <= i < |cs| ==> Scalar(cs[i])
  }

  function Spell(cs: seq<nat>): Bytes
    requires AllScalar(cs)
  {
    if cs == [] then [] else Spelling(cs[0]) + Spell(cs[1..])
  }

  /** A spelling is read as one character, whatever follows it. */
  lemma SpellingIsChar(c: nat, y: Bytes)
    requires Scalar(c)
    ensures CharLen(Spelling(c) + y) == |Spelling(c)|
  {
    var s := Spelling(c);
    var t := s + y;
    assert forall i :: 0 <= i < |s| ==> t[i] == s[i];
  }

  /** One more byte of six bits. */
  function More(c: nat, b: byte): nat
    requires Cont(b)
  {
    c * 64 + (b - 0x80)
  }

  lemma MoreSplits(c: nat, b: byte)
    requires Cont(b)
    ensures More(c, b) / 64 == c && 0x80 + More(c, b) % 64 == b
  {
  }

  lemma TwoBytes(a: byte, b: byte)
    requires 0xC2 <= a < 0xE0 && Cont(b)
    ensures var c := More(a - 0xC0, b); Scalar(c) && Spelling(c) == [a, b]
  {
    MoreSplits(a - 0xC0, b);
  }

  lemma ThreeBytes(a: byte, b: byte, d: byte)
    requires 0xE0 <= a < 0xF0 && Cont(b) && Cont(d) && (a == 0xE0 ==> b >= 0xA0) && (a == 0xED ==> b < 0xA0)
    ensures var c := More(More(a - 0xE0, b), d); Scalar(c) && Spelling(c) == [a, b, d]
  {
    var q := More(a - 0xE0, b);
    MoreSplits(a - 0xE0, b);
    MoreSplits(q, d);
    assert (a == 0xE0 ==> q >= 32) && (a > 0xE0 ==> q >= 64) && q < 1024;
    assert (a < 0xED ==> q < 0x340) && (a == 0xED ==> q < 0x360) && (a > 0xED ==> q >= 0x380);
  }

  lemma FourBytes(a: byte, b: byte, d: byte, e: byte)
    requires 0xF0 <= a < 0xF5 && Cont(b) && Cont(d) && Cont(e)
    requires (a == 0xF0 ==> b >= 0x90) && (a == 0xF4 ==> b < 0x90)
    ensures var c := More(More(More(a - 0xF0, b), d), e); Scalar(c) && Spelling(c) == [a, b, d, e]
  {
    var p := More(a - 0xF0, b);
    var q := More(p, d);
    MoreSplits(a - 0xF0, b);
    MoreSplits(p, d);
    MoreSplits(q, e);
    assert (a == 0xF0 ==> p >= 16) && (a > 0xF0 ==> p >= 64) && p < 0x110;
    assert q >= 0x400 && q < 0x4400;
  }

  /** A character that is read is the spelling of a scalar value. */
  lemma CharHasScalar(s: Bytes) returns (c: nat)
    requires CharLen(s) > 0
    ensures Scalar(c) && Spelling(c) == s[..CharLen(s)]
  {
    hide Spelling, More;
    var n := CharLen(s);
    if n == 1 {
      c := s[0];
      OneByte(s[0]);
    } else if n == 2 {
      TwoBytes(s[0], s[1]);
      c := More(s[0] - 0xC0, s[1]);
    } else if n == 3 {
      ThreeBytes(s[0], s[1], s[2]);
      c := More(More(s[0] - 0xE0, s[1]), s[2]);
    } else {
      FourBytes(s[0], s[1], s[2], s[3]);
      c := More(More(More(s[0] - 0xF0, s[1]), s[2]), s[3]);
    }
  }

  lemma OneByte(a: byte)
    requires a < 0x80
    ensures Scalar(a) && Spelling(a) == [a]
  {
  }

  lemma {:induction false} SpelledIsValid(cs: seq<nat>)
    requires AllScalar(cs)
    ensures ValidUtf8(Spell(cs))
    decreases |cs|
  {
    if cs == [] {
    } else {
      hide CharLen, Spelling;
      var s, rest := Spelling(cs[0]), Spell(cs[1..]);
      SpellingIsChar(cs[0], rest);
      SpellingIsNotEmpty(cs[0]);
      assert (s + rest)[|s|..] == rest;
      SpelledIsValid(cs[1..]);
    }
  }

  lemma SpellingIsNotEmpty(c: nat)
    requires Scalar(c)
    ensures |Spelling(c)| > 0
  {
  }

  lemma {:induction false} ValidIsSpelled(s: Bytes) returns (cs: seq<nat>)
    requires ValidUtf8(s)
    ensures AllScalar(cs) && Spell(cs) == s
    decreases |s|
  {
    if s == [] {
      cs := [];
    } else {
      hide CharLen, Spelling;
      var n := CharLen(s);
      var c := CharHasScalar(s);
      var rest := ValidIsSpelled(s[n..]);
      cs := [c] + rest;
      assert cs[1..] == rest && s == s[..n] + s[n..];
    }
  }

  /** Bytes are valid exactly when they spell a sequence of scalar values. */
  lemma ValidIffSpelled(s: Bytes)
    ensures ValidUtf8(s) <==> exists cs :: AllScalar(cs) && Spell(cs) == s
  {
    if ValidUtf8(s) {
      var cs := ValidIsSpelled(s);
    } else if exists cs :: AllScalar(cs) && Spell(cs) == s {
      var cs :| AllScalar(cs) && Spell(cs) == s;
      SpelledIsValid(cs);
    }
  }

  // ----- White space

  /** The code points with the White_Space property. */
  predicate White(c: nat) {
    || 9 <= c <= 13 || c == 32 || c == 0x85 || c == 0xA0 || c == 0x1680 || 0x2000 <= c <= 0x200A
    || c == 0x2028 || c == 0x2029 || c == 0x202F || c == 0x205F || c == 0x3000
  }

  lemma WhiteBytes(c: nat)
    requires Scalar(c)
    ensures
      var s := Spelling(c);
      White(c) <==>
        || (|s| == 1 && Space1(s[0]))
        || (|s| == 2 && Space2(s[0], s[1]))
        || (|s| == 3 && Space3(s[0], s[1], s[2]))
  {
    if c < 0x80 {
    } else if c < 0x800 {
      hide White;
      WhiteInTwo(c / 64, c % 64);
    } else if c < 0x10000 {
      hide White, Space1, Space2, Space3;
      WhiteInThree(c / 64 / 64, c / 64 % 64, c % 64);
    }
  }

  lemma WhiteInTwo(q: nat, r: nat)
    requires 2 <= q < 32 && r < 64
    ensures White(q * 64 + r) <==> Space2(0xC0 + q, 0x80 + r)
  {
  }

  lemma WhiteInThree(p: nat, u: nat, r: nat)
    requires p < 16 && u < 64 && r < 64 && (p == 0 ==> u >= 32)
    ensures White(p * 4096 + u * 64 + r) <==> Space3(0xE0 + p, 0x80 + u, 0x80 + r)
  {
  }

  lemma SpellingBytes(c: nat)
    requires Scalar(c)
    ensures
      var s := Spelling(c);
      && 1 <= |s| <= 4 && (|s| == 1 ==> s[0] < 0x80) && (|s| > 1 ==> s[0] >= 0xC0)
      && forall i :: 0 < i < |s| ==> Cont(s[i])
  {
  }

  /** Trimming looks for exactly these characters, at the front and at the end. */
  lemma TrimsWhite(c: nat, y: Bytes)
    requires Scalar(c)
    ensures SpaceInFront(Spelling(c) + y) == (if White(c) then |Spelling(c)| else 0)
    ensures SpaceAtEnd(y + Spelling(c)) == (if White(c) then |Spelling(c)| else 0)
  {
    WhiteBytes(c);
    SpellingBytes(c);
    hide Spelling, White;
    var s := Spelling(c);
    var t, u := s + y, y + s;
    assert forall i :: 0 <= i < |s| ==> t[i] == s[i] && u[|y| + i] == s[i];
  }

  // ----- Cutting valid text

  /** Only the first byte of a character does not continue one. */
  lemma CharBytes(s: Bytes)
    requires CharLen(s) > 0
    ensures !Cont(s[0]) && forall i :: 0 < i < CharLen(s) ==> Cont(s[i])
  {
  }

  lemma CharInPrefix(s: Bytes, p: nat)
    requires CharLen(s) <= p <= |s| && CharLen(s) > 0
    ensures CharLen(s[..p]) == CharLen(s)
  {
  }

  lemma ContIsNoChar(s: Bytes)
    requires s != [] && Cont(s[0])
    ensures CharLen(s) == 0 && !ValidUtf8(s)
  {
  }

  /** Valid text may be cut exactly where no byte that continues a character stands. */
  lemma {:induction false} CutsAtStarts(s: Bytes, p: nat)
    requires ValidUtf8(s) && p <= |s|
    ensures (p == |s| || !Cont(s[p])) <==> ValidUtf8(s[..p]) && ValidUtf8(s[p..])
    decreases |s|
  {
    hide CharLen, Cont;
    if p == 0 {
      assert s[..0] == [] && s[0..] == s;
      if s != [] { CharBytes(s); }
    } else {
      var n := CharLen(s);
      CharBytes(s);
      if p < n {
        ContIsNoChar(s[p..]);
      } else {
        CutsAtStarts(s[n..], p - n);
        CharInPrefix(s, p);
        assert s[..p][n..] == s[n..][..p - n] && s[n..][p - n..] == s[p..];
        assert p < |s| ==> s[n..][p - n] == s[p];
      }
    }
  }

  /** The rest behind a valid front of valid text is valid. */
  lemma {:induction false} RestIsValid(a: Bytes, b: Bytes)
    requires ValidUtf8(a) && ValidUtf8(a + b)
    ensures ValidUtf8(b)
    decreases |a|
  {
    hide CharLen;
    if a == [] {
      EmptyFront(b);
    } else {
      var n := CharLen(a);
      CharMore(a, b);
      assert (a + b)[n..] == a[n..] + b;
      RestIsValid(a[n..], b);
    }
  }

  lemma CharMore(a: Bytes, b: Bytes)
    requires CharLen(a) > 0
    ensures CharLen(a + b) == CharLen(a)
  {
  }
}
