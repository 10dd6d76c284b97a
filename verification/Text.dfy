/** The string operations the framing code borrows from the standard library, on bytes. */
module Text {
  import opened Bytes

  // ----- UTF-8

  predicate Cont(b: byte) { 0x80 <= b < 0xC0 }

  /** Length of the UTF-8 character in front of `s`, 0 if there is none. */
  function CharLen(s: Bytes): (n: nat)
    ensures n <= |s|
  {
    if |s| >= 1 && s[0] < 0x80 then 1
    else if |s| >= 2 && 0xC2 <= s[0] < 0xE0 && Cont(s[1]) then 2
    else if |s| >= 3 && 0xE0 <= s[0] < 0xF0 && Cont(s[1]) && Cont(s[2])
         && (s[0] == 0xE0 ==> s[1] >= 0xA0) && (s[0] == 0xED ==> s[1] < 0xA0) then 3
    else if |s| >= 4 && 0xF0 <= s[0] < 0xF5 && Cont(s[1]) && Cont(s[2]) && Cont(s[3])
         && (s[0] == 0xF0 ==> s[1] >= 0x90) && (s[0] == 0xF4 ==> s[1] < 0x90) then 4
    else 0
  }

  predicate ValidUtf8(s: Bytes)
    decreases |s|
  {
    s == [] || (CharLen(s) > 0 && ValidUtf8(s[CharLen(s)..]))
  }

  predicate Ascii(s: Bytes) {
    forall b :: b in s ==> b < 0x80
  }

  lemma {:induction false} AsciiIsUtf8(s: Bytes)
    requires Ascii(s)
    ensures ValidUtf8(s)
    decreases |s|
  {
    if s == [] {
    } else {
      assert s[0] in s && forall b :: b in s[1..] ==> b in s;
      AsciiIsUtf8(s[1..]);
    }
  }

  lemma {:induction false} Utf8Concat(a: Bytes, b: Bytes)
    requires ValidUtf8(a) && ValidUtf8(b)
    ensures ValidUtf8(a + b)
    decreases |a|
  {
    if a == [] {
      assert a + b == b;
    } else {
      var n := CharLen(a);
      assert CharLen(a + b) == n;
      assert (a + b)[n..] == a[n..] + b;
      Utf8Concat(a[n..], b);
    }
  }

  // ----- Trimming Unicode white space

  predicate Space2(a: byte, b: byte) { a == 0xC2 && (b == 0x85 || b == 0xA0) }

  predicate Space3(a: byte, b: byte, c: byte) {
    || (a == 0xE1 && b == 0x9A && c == 0x80)
    || (a == 0xE2 && b == 0x80 && (0x80 <= c <= 0x8A || c == 0xA8 || c == 0xA9 || c == 0xAF))
    || (a == 0xE2 && b == 0x81 && c == 0x9F)
    || (a == 0xE3 && b == 0x80 && c == 0x80)
  }

  predicate Space1(a: byte) { 9 <= a <= 13 || a == 32 }

  function SpaceInFront(s: Bytes): (n: nat)
    ensures n <= |s|
  {
    if |s| >= 1 && Space1(s[0]) then 1
    else if |s| >= 2 && Space2(s[0], s[1]) then 2
    else if |s| >= 3 && Space3(s[0], s[1], s[2]) then 3
    else 0
  }

  function SpaceAtEnd(s: Bytes): (n: nat)
    ensures n <= |s|
  {
    var m := |s|;
    if m >= 1 && Space1(s[m - 1]) then 1
    else if m >= 2 && Space2(s[m - 2], s[m - 1]) then 2
    else if m >= 3 && Space3(s[m - 3], s[m - 2], s[m - 1]) then 3
    else 0
  }

  function TrimFront(s: Bytes): Bytes
    decreases |s|
  {
    if SpaceInFront(s) == 0 then s else TrimFront(s[SpaceInFront(s)..])
  }

  function TrimEnd(s: Bytes): Bytes
    decreases |s|
  {
    if SpaceAtEnd(s) == 0 then s else TrimEnd(s[..|s| - SpaceAtEnd(s)])
  }

  function Trim(s: Bytes): Bytes {
    TrimEnd(TrimFront(s))
  }

  // ----- Lines and case

  function StripCr(s: Bytes): Bytes {
    if s != [] && s[|s| - 1] == CR then s[..|s| - 1] else s
  }

  /** Lines end at LF, with or without a CR in front of it; an empty rest is no line. */
  function Lines(s: Bytes): seq<Bytes>
    decreases |s|
  {
    if s == [] then []
    else
      match Find(s, [LF])
      case None => [s]
      case Some(p) => [StripCr(s[..p])] + Lines(s[p + 1..])
  }

  function LowerByte(b: byte): byte {
    if 65 <= b <= 90 then b + 32 else b
  }

  /** ASCII lower case, byte by byte. */
  function Lower(s: Bytes): (r: Bytes)
    ensures |r| == |s| && forall i :: 0 <= i < |s| ==> r[i] == LowerByte(s[i])
  {
    seq(|s|, i requires 0 <= i < |s| => LowerByte(s[i]))
  }

  /** Exactly the capital letters change. */
  lemma LowerIs(b: byte)
    ensures Lower(Spelt("ABCDEFGHIJKLMNOPQRSTUVWXYZ")) == Spelt("abcdefghijklmnopqrstuvwxyz")
    ensures b !in Spelt("ABCDEFGHIJKLMNOPQRSTUVWXYZ") ==> LowerByte(b) == b
  {
    var up, low := Spelt("ABCDEFGHIJKLMNOPQRSTUVWXYZ"), Spelt("abcdefghijklmnopqrstuvwxyz");
    assert forall i :: 0 <= i < 26 ==> up[i] == 65 + i && low[i] == 97 + i;
    if 65 <= b <= 90 { assert up[b - 65] == b; }
  }

  // ----- Numbers

  const USIZE_MAX: nat := 0xFFFF_FFFF_FFFF_FFFF

  function DigitValue(b: byte): (d: int) {
    if 48 <= b <= 57 then b - 48
    else if 97 <= b <= 122 then b - 87
    else if 65 <= b <= 90 then b - 55
    else 99
  }

  /** Value of a digit string in base 10 or 16, unbounded. */
  function Value(s: Bytes, radix: nat): Option<nat> {
    if s == [] then Some(0)
    else
      var init, d := Value(s[..|s| - 1], radix), DigitValue(s[|s| - 1]);
      if init.None? || d >= radix then None else Some(init.value * radix + d)
  }

  /** `from_str_radix` for a 64-bit unsigned number. */
  function ParseUsize(s: Bytes, radix: nat): Option<nat> {
    var t := if s != [] && s[0] == 43 then s[1..] else s;
    if t == [] then None
    else
      match Value(t, radix)
      case None => None
      case Some(n) => if n > USIZE_MAX then None else Some(n)
  }

  function DigitChar(d: nat): byte
    requires d < 16
  {
    if d < 10 then 48 + d else 55 + d
  }

  /** Decimal, or upper-case hexadecimal. */
  function Format(n: nat, radix: nat): (s: Bytes)
    requires radix == 10 || radix == 16
    ensures s != [] && forall b :: b in s ==> 48 <= b <= 57 || 65 <= b <= 70
  {
    if n < radix then [DigitChar(n)] else Format(n / radix, radix) + [DigitChar(n % radix)]
  }

  lemma {:induction false} ValueOfFormat(n: nat, radix: nat)
    requires radix == 10 || radix == 16
    ensures Value(Format(n, radix), radix) == Some(n)
    decreases n
  {
    var s := Format(n, radix);
    if n < radix {
      assert s[..0] == [];
    } else {
      ValueOfFormat(n / radix, radix);
      assert s[..|s| - 1] == Format(n / radix, radix);
    }
  }

  // ----- Other ways to write a number

  function Zeros(k: int): (s: Bytes)
    ensures |s| == (if k > 0 then k else 0) && forall b :: b in s ==> b == 48
    decreases k
  {
    if k <= 0 then [] else [48] + Zeros(k - 1)
  }

  lemma {:induction false} ZeroInFront(s: Bytes, radix: nat)
    requires radix > 0
    ensures Value([48] + s, radix) == Value(s, radix)
    decreases |s|
  {
    var t := [48] + s;
    if s == [] {
      assert t[..0] == [];
    } else {
      ZeroInFront(s[..|s| - 1], radix);
      assert t[..|t| - 1] == [48] + s[..|s| - 1];
    }
  }

  lemma {:induction false} ZerosInFront(k: int, s: Bytes, radix: nat)
    requires radix > 0
    ensures Value(Zeros(k) + s, radix) == Value(s, radix)
    decreases k
  {
    hide Value;
    if k <= 0 {
      EmptyFront(s);
    } else {
      Assoc([48], Zeros(k - 1), s);
      ZeroInFront(Zeros(k - 1) + s, radix);
      ZerosInFront(k - 1, s, radix);
    }
  }

  /** Letters count the same in either case. */
  lemma {:induction false} ValueOfLower(s: Bytes, radix: nat)
    ensures Value(Lower(s), radix) == Value(s, radix)
    decreases |s|
  {
    if s == [] {
    } else {
      var n := |s| - 1;
      ValueOfLower(s[..n], radix);
      assert Lower(s)[..n] == Lower(s[..n]);
      assert DigitValue(LowerByte(s[n])) == DigitValue(s[n]);
    }
  }

  /** A string has a value exactly if all its characters are digits of the base. */
  lemma {:induction false} ValueIff(s: Bytes, radix: nat)
    ensures Value(s, radix).Some? <==> forall b :: b in s ==> DigitValue(b) < radix
    decreases |s|
  {
    if s == [] {
    } else {
      var n := |s| - 1;
      ValueIff(s[..n], radix);
      assert s == s[..n] + [s[n]];
    }
  }

  /** The number behind leading zeros, its letters in either case. */
  predicate Spells(digits: Bytes, n: nat, radix: nat)
    requires radix == 10 || radix == 16
  {
    Lower(digits) == Lower(Format(n, radix))
  }

  lemma SpelledDigits(digits: Bytes, n: nat, radix: nat)
    requires (radix == 10 || radix == 16) && Spells(digits, n, radix)
    ensures digits != [] && Value(digits, radix) == Some(n)
    ensures forall b :: b in digits ==> 48 <= b <= 57 || 65 <= b <= 70 || 97 <= b <= 102
  {
    var f := Format(n, radix);
    hide Format, Value;
    ValueOfFormat(n, radix);
    ValueOfLower(f, radix);
    ValueOfLower(digits, radix);
    assert |digits| == |f|;
    forall i | 0 <= i < |digits| ensures 48 <= digits[i] <= 57 || 65 <= digits[i] <= 70 || 97 <= digits[i] <= 102 {
      assert f[i] in f;
      assert Lower(digits)[i] == Lower(f)[i];
    }
  }

  /** Parsing reads every such spelling, with or without a plus sign, and refuses what does not fit. */
  lemma ParseOfSpelling(plus: bool, zeros: nat, digits: Bytes, n: nat, radix: nat)
    requires (radix == 10 || radix == 16) && Spells(digits, n, radix)
    ensures
      var s := (if plus then [43] else []) + (Zeros(zeros) + digits);
      ParseUsize(s, radix) == if n <= USIZE_MAX then Some(n) else None
  {
    hide Value, Spells;
    SpelledDigits(digits, n, radix);
    ZerosInFront(zeros, digits, radix);
    var body := Zeros(zeros) + digits;
    assert ([43] + body)[1..] == body && [] + body == body;
    assert body[0] in body && (body[0] in Zeros(zeros) || body[0] in digits);
  }

  /** Exactly the strings of digits, with or without a plus sign, whose value fits are numbers. */
  lemma ParseIff(s: Bytes, radix: nat)
    requires radix <= 36
    ensures ParseUsize(s, radix).Some? <==> exists plus, t :: Number(s, plus, t, radix)
    ensures forall plus, t :: Number(s, plus, t, radix) ==> ParseUsize(s, radix) == Value(t, radix)
  {
    hide Value;
    forall plus, t | Number(s, plus, t, radix) ensures ParseUsize(s, radix) == Value(t, radix) {
      assert plus ==> s[1..] == t;
      assert !plus ==> s == t && s[0] in t;
    }
    var plus := s != [] && s[0] == 43;
    var t := if plus then s[1..] else s;
    ValueIff(t, radix);
    assert ParseUsize(s, radix).Some? ==> Number(s, plus, t, radix);
  }

  ghost predicate Number(s: Bytes, plus: bool, t: Bytes, radix: nat) {
    && s == (if plus then [43] else []) + t && t != [] && (forall b :: b in t ==> DigitValue(b) < radix)
    && Value(t, radix).Some? && Value(t, radix).value <= USIZE_MAX
  }

  /** Formatting then parsing a 64-bit number gives it back. */
  lemma ParseOfFormat(n: nat, radix: nat)
    requires (radix == 10 || radix == 16) && n <= USIZE_MAX
    ensures ParseUsize(Format(n, radix), radix) == Some(n)
  {
    ValueOfFormat(n, radix);
    assert Format(n, radix)[0] in Format(n, radix);
  }

  /** Spaces and tabs. */
  predicate Blank(s: Bytes) {
    forall b :: b in s ==> b == 32 || b == 9
  }

  lemma {:induction false} TrimsFront(a: Bytes, s: Bytes)
    requires Blank(a) && SpaceInFront(s) == 0
    ensures TrimFront(a + s) == s
    decreases |a|
  {
    if a == [] {
      EmptyFront(s);
    } else {
      assert a[0] in a && (forall b :: b in a[1..] ==> b in a);
      HeadTail(a, s);
      TrimsFront(a[1..], s);
    }
  }

  lemma {:induction false} TrimsEnd(s: Bytes, a: Bytes)
    requires Blank(a) && SpaceAtEnd(s) == 0
    ensures TrimEnd(s + a) == s
    decreases |a|
  {
    if a == [] {
      assert s + [] == s;
    } else {
      var n := |a| - 1;
      assert a[n] in a && (forall b :: b in a[..n] ==> b in a);
      assert (s + a)[..|s + a| - 1] == s + a[..n] && (s + a)[|s + a| - 1] == a[n];
      TrimsEnd(s, a[..n]);
    }
  }

  /** Blanks around text without white space at its ends are trimmed. */
  lemma TrimsBlanks(a: Bytes, s: Bytes, b: Bytes)
    requires Blank(a) && Blank(b) && SpaceInFront(s) == 0 && SpaceAtEnd(s) == 0
    ensures Trim(a + (s + b)) == s
  {
    if s == [] {
      BlankOnly(a + b);
      EmptyFront(b);
    } else {
      SpaceBeforeBlank(s, b);
      hide TrimFront, TrimEnd, SpaceInFront, SpaceAtEnd;
      TrimsFront(a, s + b);
      TrimsEnd(s, b);
    }
  }

  lemma SpaceBeforeBlank(s: Bytes, b: Bytes)
    requires s != [] && SpaceInFront(s) == 0 && Blank(b)
    ensures SpaceInFront(s + b) == 0
  {
    var t := s + b;
    assert forall i :: 0 <= i < |t| ==> t[i] == if i < |s| then s[i] else b[i - |s|];
    assert forall i :: 0 <= i < |b| ==> b[i] in b;
  }

  lemma {:induction false} BlankOnly(a: Bytes)
    requires Blank(a)
    ensures Trim(a) == []
    decreases |a|
  {
    if a == [] {
    } else {
      assert a[0] in a && (forall b :: b in a[1..] ==> b in a);
      BlankOnly(a[1..]);
    }
  }

  /** Printable text has nothing to trim at its ends. */
  lemma TrimNothing(s: Bytes)
    requires s == [] || (32 < s[0] < 0x80 && 32 < s[|s| - 1] < 0x80)
    ensures Trim(s) == s
  {
  }
}
