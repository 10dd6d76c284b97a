/** Server name indication: peeking into a ClientHello (section 4.1.2 of RFC 8446, section 3 of RFC 6066). */
module Sni {
  import opened Bytes
  import opened Text

  function Be16(hi: nat, lo: nat): nat {
    hi * 256 + lo
  }

  function U16(b: Bytes, i: nat): Option<nat> {
    if i + 1 < |b| then Some(Be16(b[i], b[i + 1])) else None
  }

  /** The host name in the data of a server_name extension. */
  function ServerName(d: Bytes): Option<Bytes> {
    if |d| < 5 || d[2] != 0 then None
    else
      var n := Be16(d[3], d[4]);
      if 5 + n > |d| || !ValidUtf8(d[5..5 + n]) then None else Some(d[5..5 + n])
  }

  /** The first server_name extension at or after `pos`. */
  function NameFrom(hello: Bytes, pos: nat, end: nat): Option<Bytes>
    decreases end - pos
  {
    if pos + 4 > end then None
    else
      match (U16(hello, pos), U16(hello, pos + 2))
      case (Some(kind), Some(len)) =>
        if kind != 0 then NameFrom(hello, pos + 4 + len, end)
        else if pos + 4 + len > |hello| then None
        else ServerName(hello[pos + 4..pos + 4 + len])
      case _ => None
  }

  /** A one-byte length field and what it covers: the offset behind it. */
  function Skip8(b: Bytes, pos: nat): Option<nat> {
    if pos < |b| then Some(pos + 1 + b[pos]) else None
  }

  function Skip16(b: Bytes, pos: nat): Option<nat> {
    match U16(b, pos) case None => None case Some(n) => Some(pos + 2 + n)
  }

  function NameInHello(hello: Bytes): Option<Bytes> {
    match Skip8(hello, 34)
    case None => None
    case Some(afterSession) =>
      match Skip16(hello, afterSession)
      case None => None
      case Some(afterSuites) =>
        match Skip8(hello, afterSuites)
        case None => None
        case Some(afterCompression) =>
          match U16(hello, afterCompression)
          case None => None
          case Some(total) => NameFrom(hello, afterCompression + 2, afterCompression + 2 + total)
  }

  function HelloIn(buf: Bytes): Option<Bytes> {
    if |buf| < 9 || buf[0] != 0x16 || buf[5] != 1 then None
    else
      var n := Be16(Be16(buf[6], buf[7]), buf[8]);
      if 9 + n > |buf| then None else Some(buf[9..9 + n])
  }

  /** The parser walks the buffer without ever leaving it, whatever the bytes are. */
  method PeekSni(buf: Bytes) returns (name: Option<Bytes>)
    ensures name == match HelloIn(buf) case None => None case Some(hello) => NameInHello(hello)
  {
    hide ServerName, Be16, U16;
    if |buf| < 5 || buf[0] != 0x16 { return None; }
    var hs := buf[5..];
    if |hs| < 4 || hs[0] != 1 { return None; }
    var n := Be16(Be16(hs[1], hs[2]), hs[3]);
    if 4 + n > |hs| { return None; }
    var hello := hs[4..4 + n];
    assert hello == buf[9..9 + n];
    var pos := 34;
    if pos >= |hello| { return None; }
    pos := pos + 1 + hello[pos];
    var suites := U16(hello, pos);
    if suites.None? { return None; }
    pos := pos + 2 + suites.value;
    if pos >= |hello| { return None; }
    pos := pos + 1 + hello[pos];
    var total := U16(hello, pos);
    if total.None? { return None; }
    pos := pos + 2;
    var end := pos + total.value;
    while pos + 4 <= end
      invariant NameFrom(hello, pos, end) == NameInHello(hello)
      decreases end - pos
    {
      var kind, len := U16(hello, pos), U16(hello, pos + 2);
      if kind.None? || len.None? { return None; }
      pos := pos + 4;
      if kind.value == 0 {
        if pos + len.value > |hello| { return None; }
        return ServerName(hello[pos..pos + len.value]);
      }
      pos := pos + len.value;
    }
    return None;
  }

  // ----- What a client writes

  function Put16(n: nat): Bytes
    requires n < 65536
  {
    [n / 256, n % 256]
  }

  datatype Extension = Extension(kind: nat, data: Bytes)
  {
    predicate Fits() { kind < 65536 && |data| < 65536 }

    function Wire(): Bytes
      requires Fits()
    {
      Put16(kind) + (Put16(|data|) + data)
    }
  }

  function ExtensionsWire(es: seq<Extension>): Bytes
    requires forall e :: e in es ==> e.Fits()
    decreases |es|
  {
    if es == [] then [] else es[0].Wire() + ExtensionsWire(es[1..])
  }

  datatype Hello = Hello(prefix: Bytes, session: Bytes, suites: Bytes, compression: Bytes, extensions: seq<Extension>)
  {
    /** Version and random take 34 bytes, and every length fits its field. */
    predicate Fits() {
      && |prefix| == 34 && |session| < 256 && |suites| < 65536 && |compression| < 256
      && (forall e :: e in extensions ==> e.Fits()) && |ExtensionsWire(extensions)| < 65536
    }

    function Wire(): Bytes
      requires Fits()
    {
      prefix + ([|session|] + (session + (Put16(|suites|) + (suites + ([|compression|] + (compression +
        (Put16(|ExtensionsWire(extensions)|) + ExtensionsWire(extensions))))))))
    }
  }

  function Record(h: Hello, version: Bytes, length: Bytes): Bytes
    requires h.Fits() && |h.Wire()| < 16777216 && |version| == 2 && |length| == 2
  {
    var n := |h.Wire()|;
    [0x16] + version + length + [1, n / 65536, n / 256 % 256, n % 256] + h.Wire()
  }

  /** What the extensions mean: the name in the first server_name extension. */
  function FirstServerName(es: seq<Extension>): Option<Bytes>
    decreases |es|
  {
    if es == [] then None
    else if es[0].kind == 0 then ServerName(es[0].data)
    else FirstServerName(es[1..])
  }

  lemma U16At(a: Bytes, n: nat, y: Bytes)
    requires n < 65536
    ensures U16(a + (Put16(n) + y), |a|) == Some(n)
  {
    var t := a + (Put16(n) + y);
    assert t[|a|] == n / 256 && t[|a| + 1] == n % 256;
  }

  /** One extension behind `pre`, read back. */
  lemma ReadsExtension(pre: Bytes, e: Extension, rest: Bytes)
    requires e.Fits()
    ensures
      var b, n := pre + (e.Wire() + rest), |e.data|;
      && U16(b, |pre|) == Some(e.kind) && U16(b, |pre| + 2) == Some(n)
      && |pre| + 4 + n <= |b| && b[|pre| + 4..|pre| + 4 + n] == e.data
      && b == (pre + e.Wire()) + rest && |e.Wire()| == 4 + n
  {
    hide U16, Put16;
    Put16Length(e.kind);
    Put16Length(|e.data|);
    var kind, len := Put16(e.kind), Put16(|e.data|);
    var b := pre + (e.Wire() + rest);
    Regroup(pre, kind, len, e.data, rest);
    Assoc(pre, kind, len);
    Assoc(pre, kind, len + (e.data + rest));
    Assoc(pre + kind, len, e.data + rest);
    U16At(pre, e.kind, len + (e.data + rest));
    U16At(pre + kind, |e.data|, e.data + rest);
    CutMiddle(pre + kind + len, e.data, rest);
    Assoc(pre, e.Wire(), rest);
  }

  lemma CutMiddle(a: Bytes, b: Bytes, c: Bytes)
    ensures (a + (b + c))[|a|..|a| + |b|] == b
  {
  }

  lemma {:induction false} ExtensionsParse(pre: Bytes, es: seq<Extension>)
    requires forall e :: e in es ==> e.Fits()
    ensures NameFrom(pre + ExtensionsWire(es), |pre|, |pre| + |ExtensionsWire(es)|) == FirstServerName(es)
    decreases |es|
  {
    hide ServerName, U16, Extension.Wire;
    if es == [] {
    } else {
      assert es[0] in es;
      ReadsExtension(pre, es[0], ExtensionsWire(es[1..]));
      ExtensionsParse(pre + es[0].Wire(), es[1..]);
    }
  }

  /** A total that ends behind the header of an extension does not cut its data short. */
  lemma TotalIsNoLimit(pre: Bytes, e: Extension, rest: Bytes, end: nat)
    requires e.Fits() && e.kind == 0 && end >= |pre| + 4
    ensures NameFrom(pre + (e.Wire() + rest), |pre|, end) == ServerName(e.data)
  {
    hide ServerName, U16, Extension.Wire;
    ReadsExtension(pre, e, rest);
  }

  lemma Skip8At(a: Bytes, d: Bytes, y: Bytes)
    requires |d| < 256
    ensures Skip8(a + ([|d|] + (d + y)), |a|) == Some(|a| + 1 + |d|)
    ensures a + ([|d|] + (d + y)) == (a + [|d|] + d) + y
  {
  }

  lemma Skip16At(a: Bytes, d: Bytes, y: Bytes)
    requires |d| < 65536
    ensures Skip16(a + (Put16(|d|) + (d + y)), |a|) == Some(|a| + 2 + |d|)
    ensures a + (Put16(|d|) + (d + y)) == (a + Put16(|d|) + d) + y
  {
    U16At(a, |d|, d + y);
  }

  /** Every field is skipped exactly and the extensions are read for what they are. */
  lemma HelloParses(h: Hello)
    requires h.Fits()
    ensures NameInHello(h.Wire()) == FirstServerName(h.extensions)
  {
    hide NameFrom, FirstServerName, U16, Skip8, Skip16, Put16, ExtensionsWire;
    var es := ExtensionsWire(h.extensions);
    var y3 := Put16(|es|) + es;
    var y2 := [|h.compression|] + (h.compression + y3);
    var y1 := Put16(|h.suites|) + (h.suites + y2);
    Skip8At(h.prefix, h.session, y1);
    var p1 := h.prefix + [|h.session|] + h.session;
    Skip16At(p1, h.suites, y2);
    var p2 := p1 + Put16(|h.suites|) + h.suites;
    Skip8At(p2, h.compression, y3);
    var p3 := p2 + [|h.compression|] + h.compression;
    U16At(p3, |es|, es);
    Put16Length(|es|);
    Put16Length(|h.suites|);
    Assoc(p3, Put16(|es|), es);
    ExtensionsParse(p3 + Put16(|es|), h.extensions);
    assert h.Wire() == p3 + y3;
  }

  lemma Put16Length(n: nat)
    requires n < 65536
    ensures |Put16(n)| == 2
  {
  }

  /** The record layer around it. */
  lemma RecordParses(h: Hello, version: Bytes, length: Bytes, tail: Bytes)
    requires h.Fits() && |h.Wire()| < 16777216 && |version| == 2 && |length| == 2
    ensures HelloIn(Record(h, version, length) + tail) == Some(h.Wire())
  {
    hide Hello.Wire, Hello.Fits;
    var w := h.Wire();
    var n := |w|;
    var head := [0x16] + version + length + [1, n / 65536, n / 256 % 256, n % 256];
    var b := Record(h, version, length) + tail;
    assert b == head + (w + tail) && |head| == 9;
    assert head[0] == 0x16 && head[5] == 1 && head[6] == n / 65536 && head[7] == n / 256 % 256 && head[8] == n % 256;
    assert b[9..9 + n] == w;
    assert n / 65536 == n / 256 / 256;
  }

  /** The data a client writes for one host name. */
  function NameData(name: Bytes): Bytes
    requires |name| <= 65530
  {
    Put16(|name| + 3) + ([0] + (Put16(|name|) + name))
  }

  lemma Be16Is(hi: byte, lo: byte, n: nat)
    requires n < 65536
    ensures Be16(hi, lo) == n <==> hi == n / 256 && lo == n % 256
  {
  }

  lemma NameInFront(d: Bytes, hi: byte, lo: byte, name: Bytes)
    ensures |d| >= 2 && [0] + ([hi, lo] + name) <= d[2..] <==>
      |d| >= 5 + |name| && d[2] == 0 && d[3] == hi && d[4] == lo && d[5..5 + |name|] == name
  {
    var n, w := |name|, [0] + ([hi, lo] + name);
    if |d| >= 5 + n {
      var t := d[2..][..n + 3];
      assert t == [d[2]] + ([d[3], d[4]] + d[5..5 + n]);
      assert t[0] == d[2] && t[1] == d[3] && t[2] == d[4] && t[3..] == d[5..5 + n];
      assert w[0] == 0 && w[1] == hi && w[2] == lo && w[3..] == name;
    }
  }

  /** The name is taken exactly if its type is host_name, all of it is there and it is UTF-8. */
  lemma ServerNameIff(d: Bytes, name: Bytes)
    ensures ServerName(d) == Some(name) <==>
      && |name| < 65536 && ValidUtf8(name)
      && |d| >= 2 && [0] + (Put16(|name|) + name) <= d[2..]
  {
    hide ValidUtf8, Be16;
    var n := |name|;
    if n < 65536 {
      NameInFront(d, n / 256, n % 256, name);
      if |d| >= 5 { Be16Is(d[3], d[4], n); }
    }
    if |d| >= 5 { Be16Small(d[3], d[4]); }
  }

  lemma Be16Small(hi: byte, lo: byte)
    ensures Be16(hi, lo) < 65536
  {
  }

  lemma NameDataParses(name: Bytes)
    requires |name| <= 65530 && ValidUtf8(name)
    ensures ServerName(NameData(name)) == Some(name)
  {
    hide ValidUtf8;
    var d, n := NameData(name), |name|;
    assert d[2] == 0 && d[3] == n / 256 && d[4] == n % 256;
    assert d[5..5 + n] == name;
  }

  /**
   * Parsing inverts writing: for any session id, cipher suites, compression methods and extensions, the record
   * yields the name of the first server_name extension, or nothing if there is none.
   */
  lemma SniInverts(h: Hello, version: Bytes, length: Bytes, tail: Bytes)
    requires h.Fits() && |h.Wire()| < 16777216 && |version| == 2 && |length| == 2
    ensures HelloIn(Record(h, version, length) + tail).Some?
    ensures NameInHello(HelloIn(Record(h, version, length) + tail).value) == FirstServerName(h.extensions)
    ensures (forall e :: e in h.extensions ==> e.kind != 0) ==> FirstServerName(h.extensions).None?
    ensures forall i, name: Bytes | 0 <= i < |h.extensions| && |name| <= 65530 && ValidUtf8(name) ::
      h.extensions[i] == Extension(0, NameData(name)) && (forall j :: 0 <= j < i ==> h.extensions[j].kind != 0)
      ==> FirstServerName(h.extensions) == Some(name)
  {
    hide Hello.Wire, Hello.Fits, NameInHello, ServerName, ValidUtf8, NameData;
    RecordParses(h, version, length, tail);
    HelloParses(h);
    if forall e :: e in h.extensions ==> e.kind != 0 { NoServerName(h.extensions); }
    forall i, name: Bytes | 0 <= i < |h.extensions| && |name| <= 65530 && ValidUtf8(name)
      ensures h.extensions[i] == Extension(0, NameData(name)) && (forall j :: 0 <= j < i ==> h.extensions[j].kind != 0)
        ==> FirstServerName(h.extensions) == Some(name)
    {
      NameDataParses(name);
      ServerNameAt(h.extensions, i);
    }
  }

  /** Once the hello is complete, more bytes change nothing; before that there is no name. */
  lemma HelloStable(buf: Bytes, y: Bytes)
    ensures HelloIn(buf).Some? ==> HelloIn(buf + y) == HelloIn(buf)
  {
    if HelloIn(buf).Some? {
      var n := |HelloIn(buf).value|;
      assert (buf + y)[9..9 + n] == buf[9..9 + n];
    }
  }

  lemma {:induction false} NoServerName(es: seq<Extension>)
    requires forall e :: e in es ==> e.kind != 0
    ensures FirstServerName(es).None?
    decreases |es|
  {
    if es == [] {
    } else {
      assert es[0] in es;
      NoServerName(es[1..]);
    }
  }

  lemma {:induction false} ServerNameAt(es: seq<Extension>, i: nat)
    requires i < |es|
    ensures es[i].kind == 0 && (forall j :: 0 <= j < i ==> es[j].kind != 0) ==>
      FirstServerName(es) == ServerName(es[i].data)
    decreases |es|
  {
    hide ServerName;
    if i == 0 {
    } else {
      ServerNameAt(es[1..], i - 1);
      assert forall j :: 0 <= j < i - 1 ==> es[1..][j] == es[j + 1];
    }
  }
}
