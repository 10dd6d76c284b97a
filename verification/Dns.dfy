/** The fallback resolver's DNS messages (section 4.1 of RFC 1035). */
module Dns {
  import opened Bytes

  // ----- Queries

  /** The parts of a host name between its dots. */
  function Labels(host: Bytes): seq<Bytes>
    decreases |host|
  {
    match Find(host, [46])
    case None => [host]
    case Some(p) => [host[..p]] + Labels(host[p + 1..])
  }

  function WithDots(labels: seq<Bytes>): Bytes
    decreases |labels|
  {
    if labels == [] then [] else if |labels| == 1 then labels[0] else labels[0] + ([46] + WithDots(labels[1..]))
  }

  /** The labels are the host name cut at all its dots and nowhere else. */
  lemma {:induction false} LabelsAreTheHost(host: Bytes)
    ensures Labels(host) != [] && WithDots(Labels(host)) == host
    ensures forall l :: l in Labels(host) ==> 46 !in l
    decreases |host|
  {
    var r := Find(host, [46]);
    if r.Some? {
      var p, rest := r.value, Labels(host[r.value + 1..]);
      LabelsAreTheHost(host[p + 1..]);
      NoByteBefore(host, 46, p);
      hide Find, NoneBefore;
      assert Labels(host)[1..] == rest;
      assert host == host[..p] + ([46] + host[p + 1..]);
    } else {
      NoByteBefore(host, 46, |host|);
    }
  }

  /** Each label behind its length byte, then the root label. */
  function NameWire(labels: seq<Bytes>): Bytes
    decreases |labels|
  {
    if labels == [] then [0] else [|labels[0]| % 256] + (labels[0] + NameWire(labels[1..]))
  }

  const QUERY_HEADER: Bytes := [0xAB, 0xCD, 0x01, 0x00, 0x00, 0x01, 0, 0, 0, 0, 0, 0]
  const QUESTION_TAIL: Bytes := [0, 1, 0, 1]

  function Query(labels: seq<Bytes>): Bytes {
    QUERY_HEADER + NameWire(labels) + QUESTION_TAIL
  }

  method BuildDnsAQuery(host: Bytes) returns (buf: Bytes)
    ensures buf == Query(Labels(host))
  {
    hide Labels;
    buf := QUERY_HEADER;
    var labels := Labels(host);
    for i := 0 to |labels|
      invariant buf + NameWire(labels[i..]) == QUERY_HEADER + NameWire(labels)
    {
      assert labels[i..][0] == labels[i] && labels[i..][1..] == labels[i + 1..];
      ghost var rest := NameWire(labels[i + 1..]);
      assert buf + ([|labels[i]| % 256] + (labels[i] + rest)) == buf + [|labels[i]| % 256] + labels[i] + rest;
      buf := buf + [|labels[i]| % 256] + labels[i];
    }
    assert labels[|labels|..] == [];
    buf := buf + [0] + QUESTION_TAIL;
  }

  // ----- Responses

  function Be16(b: Bytes, i: nat): nat
    requires i + 1 < |b|
  {
    var hi: nat, lo: nat := b[i], b[i + 1];
    hi * 256 + lo
  }

  /** Behind the name in the question; a pointer ends it. */
  function SkipQuestionName(r: Bytes, pos: nat): Option<nat>
    decreases |r| - pos
  {
    if pos >= |r| then None
    else if r[pos] == 0 then Some(pos + 1)
    else if r[pos] >= 0xC0 then Some(pos + 2)
    else SkipQuestionName(r, pos + 1 + r[pos])
  }

  /** Behind plain labels; every byte is taken for a length. */
  function SkipLabels(r: Bytes, pos: nat): Option<nat>
    decreases |r| - pos
  {
    if pos >= |r| then None
    else if r[pos] == 0 then Some(pos + 1)
    else SkipLabels(r, pos + 1 + r[pos])
  }

  /** Behind the name of an answer: a bare pointer or plain labels. */
  function SkipAnswerName(r: Bytes, pos: nat): Option<nat> {
    if pos >= |r| then None
    else if r[pos] >= 0xC0 then Some(pos + 2)
    else SkipLabels(r, pos)
  }

  /** The first address among the next `count` answers. */
  function FirstAddress(r: Bytes, pos: nat, count: nat): Option<Bytes>
    decreases count
  {
    if count == 0 then None
    else
      match SkipAnswerName(r, pos)
      case None => None
      case Some(p) =>
        if p + 10 > |r| then None
        else
          var kind, len := Be16(r, p), Be16(r, p + 8);
          if kind == 1 && len == 4 && p + 14 <= |r| then Some(r[p + 10..p + 14])
          else FirstAddress(r, p + 10 + len, count - 1)
  }

  function ParseResponse(r: Bytes): Option<Bytes> {
    if |r| < 12 || Be16(r, 6) == 0 then None
    else
      match SkipQuestionName(r, 12)
      case None => None
      case Some(p) => FirstAddress(r, p + 4, Be16(r, 6))
  }

  /** The parser stays inside the response whatever it holds. */
  method ParseFirstARecord(r: Bytes) returns (address: Option<Bytes>)
    ensures address == ParseResponse(r)
  {
    hide Be16;
    if |r| < 12 { return None; }
    var count := Be16(r, 6);
    if count == 0 { return None; }
    var pos: nat := 12;
    while true
      invariant SkipQuestionName(r, pos) == SkipQuestionName(r, 12)
      decreases |r| - pos
    {
      if pos >= |r| { return None; }
      var len: nat := r[pos];
      if len == 0 { pos := pos + 1; break; }
      if len >= 0xC0 { pos := pos + 2; break; }
      pos := pos + 1 + len;
    }
    pos := pos + 4;
    for i := 0 to count
      invariant ParseResponse(r) == FirstAddress(r, pos, count - i)
    {
      if pos >= |r| { return None; }
      ghost var start := pos;
      if r[pos] >= 0xC0 {
        pos := pos + 2;
      } else {
        while true
          invariant SkipLabels(r, pos) == SkipLabels(r, start)
          decreases |r| - pos
        {
          if pos >= |r| { return None; }
          var len: nat := r[pos];
          pos := pos + 1;
          if len == 0 { break; }
          pos := pos + len;
        }
      }
      assert SkipAnswerName(r, start) == Some(pos);
      if pos + 10 > |r| { return None; }
      var kind := Be16(r, pos);
      pos := pos + 8;
      var len := Be16(r, pos);
      pos := pos + 2;
      if kind == 1 && len == 4 && pos + 4 <= |r| { return Some(r[pos..pos + 4]); }
      pos := pos + len;
    }
    return None;
  }

  // ----- More bytes never change an answer

  lemma {:induction false} SkipsStable(r: Bytes, y: Bytes, pos: nat)
    ensures SkipQuestionName(r, pos).Some? ==> SkipQuestionName(r + y, pos) == SkipQuestionName(r, pos)
    ensures SkipLabels(r, pos).Some? ==> SkipLabels(r + y, pos) == SkipLabels(r, pos)
    decreases |r| - pos
  {
    if pos >= |r| || r[pos] == 0 {
    } else {
      SkipsStable(r, y, pos + 1 + r[pos]);
    }
  }

  lemma FieldsStable(r: Bytes, y: Bytes, p: nat)
    requires p + 10 <= |r|
    ensures Be16(r + y, p) == Be16(r, p) && Be16(r + y, p + 8) == Be16(r, p + 8)
    ensures p + 14 <= |r| ==> (r + y)[p + 10..p + 14] == r[p + 10..p + 14]
  {
  }

  lemma {:induction false} AddressStable(r: Bytes, y: Bytes, pos: nat, count: nat)
    ensures FirstAddress(r, pos, count).Some? ==> FirstAddress(r + y, pos, count) == FirstAddress(r, pos, count)
    decreases count
  {
    hide Be16, SkipLabels;
    SkipsStable(r, y, pos);
    if count == 0 || SkipAnswerName(r, pos).None? {
    } else {
      var p := SkipAnswerName(r, pos).value;
      if p + 10 <= |r| {
        FieldsStable(r, y, p);
        AddressStable(r, y, p + 10 + Be16(r, p + 8), count - 1);
        NothingBehind(r, p + 14, count - 1);
      }
    }
  }

  lemma NothingBehind(r: Bytes, pos: nat, count: nat)
    ensures pos >= |r| ==> FirstAddress(r, pos, count).None?
  {
  }

  /** An address found in a part of a response is the one found in the whole. */
  lemma AnswerStable(r: Bytes, y: Bytes)
    ensures ParseResponse(r).Some? ==> ParseResponse(r + y) == ParseResponse(r)
  {
    hide FirstAddress, SkipQuestionName;
    SkipsStable(r, y, 12);
    if |r| >= 12 && SkipQuestionName(r, 12).Some? {
      assert Be16(r + y, 6) == Be16(r, 6);
      AddressStable(r, y, SkipQuestionName(r, 12).value + 4, Be16(r, 6));
    }
  }

  // ----- What is asked is skipped, what is answered is found

  predicate GoodLabels(labels: seq<Bytes>) {
    forall l :: l in labels ==> 1 <= |l| <= 63
  }

  /** A name at `pre` opens with the length of its first label. */
  lemma NameCons(pre: Bytes, labels: seq<Bytes>, y: Bytes)
    requires labels != [] && GoodLabels(labels)
    ensures
      var r, l := pre + (NameWire(labels) + y), labels[0];
      && r == (pre + [|l| % 256] + l) + (NameWire(labels[1..]) + y)
      && |r| > |pre| && r[|pre|] == |l| && 1 <= |l| <= 63
      && |NameWire(labels)| == 1 + |l| + |NameWire(labels[1..])|
  {
    var l := labels[0];
    assert l in labels;
    Regroup(pre, [|l| % 256], l, NameWire(labels[1..]), y);
    FirstByte(pre, [|l| % 256], l + NameWire(labels[1..]), y);
  }

  lemma FirstByte(a: Bytes, b: Bytes, c: Bytes, d: Bytes)
    requires |b| == 1
    ensures (a + ((b + c) + d))[|a|] == b[0]
  {
  }

  lemma GoodTail(labels: seq<Bytes>)
    requires labels != [] && GoodLabels(labels)
    ensures GoodLabels(labels[1..])
  {
  }

  lemma SkipsLabel(r: Bytes, pos: nat)
    requires pos < |r| && 0 < r[pos] < 64
    ensures SkipQuestionName(r, pos) == SkipQuestionName(r, pos + 1 + r[pos])
    ensures SkipLabels(r, pos) == SkipLabels(r, pos + 1 + r[pos])
  {
  }

  lemma SkipsRoot(pre: Bytes, y: Bytes)
    ensures var r := pre + (NameWire([]) + y);
      r[|pre|] == 0 && SkipQuestionName(r, |pre|) == Some(|pre| + 1) && SkipLabels(r, |pre|) == Some(|pre| + 1)
  {
    assert (pre + (NameWire([]) + y))[|pre|] == 0;
  }

  lemma {:induction false} SkipsName(pre: Bytes, labels: seq<Bytes>, y: Bytes)
    requires GoodLabels(labels)
    ensures var r := pre + (NameWire(labels) + y);
      && |r| > |pre| && r[|pre|] < 64
      && SkipQuestionName(r, |pre|) == Some(|pre| + |NameWire(labels)|)
      && SkipLabels(r, |pre|) == Some(|pre| + |NameWire(labels)|)
    decreases |labels|
  {
    hide SkipQuestionName, SkipLabels;
    if labels == [] {
      SkipsRoot(pre, y);
    } else {
      NameCons(pre, labels, y);
      GoodTail(labels);
      SkipsLabel(pre + (NameWire(labels) + y), |pre|);
      hide NameWire, GoodLabels;
      SkipsName(pre + [|labels[0]| % 256] + labels[0], labels[1..], y);
    }
  }

  /** Skipping the question lands exactly behind what the query builder wrote. */
  lemma QuestionIsSkipped(labels: seq<Bytes>, y: Bytes)
    requires GoodLabels(labels)
    ensures SkipQuestionName(Query(labels) + y, 12) == Some(|Query(labels)| - 4)
  {
    SkipsName(QUERY_HEADER, labels, QUESTION_TAIL + y);
    assert Query(labels) + y == QUERY_HEADER + (NameWire(labels) + (QUESTION_TAIL + y));
  }

  /** What a name server reads: the labels up to the root, each behind its length. */
  function ReadName(q: Bytes, pos: nat): Option<seq<Bytes>>
    decreases |q| - pos
  {
    if pos >= |q| || q[pos] >= 64 then None
    else if q[pos] == 0 then Some([])
    else if pos + 1 + q[pos] > |q| then None
    else
      match ReadName(q, pos + 1 + q[pos])
      case None => None
      case Some(labels) => Some([q[pos + 1..pos + 1 + q[pos]]] + labels)
  }

  lemma {:induction false} NameReadsBack(pre: Bytes, labels: seq<Bytes>, y: Bytes)
    requires GoodLabels(labels)
    ensures ReadName(pre + (NameWire(labels) + y), |pre|) == Some(labels)
    decreases |labels|
  {
    hide ReadName;
    if labels == [] {
      SkipsRoot(pre, y);
      ReadsRoot(pre + (NameWire(labels) + y), |pre|);
    } else {
      NameCons(pre, labels, y);
      GoodTail(labels);
      hide NameWire, GoodLabels;
      var l, rest := labels[0], NameWire(labels[1..]) + y;
      NameReadsBack(pre + [|l| % 256] + l, labels[1..], y);
      ReadsLabel(pre, |l| % 256, l, rest);
      assert [l] + labels[1..] == labels;
    }
  }

  lemma ReadsRoot(r: Bytes, pos: nat)
    requires pos < |r| && r[pos] == 0
    ensures ReadName(r, pos) == Some([])
  {
  }

  lemma ReadsLabel(pre: Bytes, n: byte, l: Bytes, y: Bytes)
    requires n == |l| && 0 < n < 64
    ensures
      var r, next := (pre + [n] + l) + y, |pre + [n] + l|;
      ReadName(r, next).Some? ==> ReadName(r, |pre|) == Some([l] + ReadName(r, next).value)
  {
    var r := (pre + [n] + l) + y;
    assert r[|pre|] == n && r[|pre| + 1..|pre| + 1 + n] == l;
  }

  /** The query asks for the host's address, once: recursion desired, one question, type A, class IN. */
  lemma QueryReadsBack(labels: seq<Bytes>)
    requires GoodLabels(labels)
    ensures
      var q := Query(labels);
      var tail := |q| - 4;
      && tail >= 12 && Be16(q, 0) == 0xABCD && Be16(q, 2) == 0x0100
      && Be16(q, 4) == 1 && Be16(q, 6) == 0 && Be16(q, 8) == 0 && Be16(q, 10) == 0
      && ReadName(q, 12) == Some(labels) && SkipQuestionName(q, 12) == Some(tail)
      && Be16(q, tail) == 1 && Be16(q, tail + 2) == 1
  {
    hide NameWire, ReadName, SkipQuestionName;
    var q, name := Query(labels), NameWire(labels);
    QuestionIsSkipped(labels, []);
    assert q + [] == q;
    NameReadsBack(QUERY_HEADER, labels, QUESTION_TAIL);
    Assoc(QUERY_HEADER, name, QUESTION_TAIL);
    assert forall i :: 0 <= i < 12 ==> q[i] == QUERY_HEADER[i];
    assert forall i :: 0 <= i < 4 ==> q[|q| - 4 + i] == QUESTION_TAIL[i];
  }

  /** Labels that run into a pointer, as in a response whose question is compressed. */
  function LabelsWire(labels: seq<Bytes>): Bytes
    decreases |labels|
  {
    if labels == [] then [] else [|labels[0]| % 256] + (labels[0] + LabelsWire(labels[1..]))
  }

  lemma LabelsCons(pre: Bytes, labels: seq<Bytes>, y: Bytes)
    requires labels != [] && GoodLabels(labels)
    ensures
      var r, l := pre + (LabelsWire(labels) + y), labels[0];
      && r == (pre + [|l| % 256] + l) + (LabelsWire(labels[1..]) + y)
      && |r| > |pre| && r[|pre|] == |l| && 1 <= |l| <= 63
      && |LabelsWire(labels)| == 1 + |l| + |LabelsWire(labels[1..])|
  {
    var l := labels[0];
    assert l in labels;
    Regroup(pre, [|l| % 256], l, LabelsWire(labels[1..]), y);
    FirstByte(pre, [|l| % 256], l + LabelsWire(labels[1..]), y);
  }

  /** A pointer ends the name of a question, two bytes long. */
  lemma {:induction false} SkipsToPointer(pre: Bytes, labels: seq<Bytes>, hi: byte, lo: byte, y: Bytes)
    requires GoodLabels(labels) && hi >= 0xC0
    ensures
      SkipQuestionName(pre + (LabelsWire(labels) + ([hi, lo] + y)), |pre|) == Some(|pre| + |LabelsWire(labels)| + 2)
    decreases |labels|
  {
    hide SkipQuestionName;
    if labels == [] {
      PointerEnds(pre, hi, lo, y);
    } else {
      var l, tail := labels[0], [hi, lo] + y;
      LabelsCons(pre, labels, tail);
      GoodTail(labels);
      hide LabelsWire, GoodLabels;
      SkipsLabel(pre + (LabelsWire(labels) + tail), |pre|);
      SkipsToPointer(pre + [|l| % 256] + l, labels[1..], hi, lo, y);
    }
  }

  lemma PointerEnds(pre: Bytes, hi: byte, lo: byte, y: Bytes)
    requires hi >= 0xC0
    ensures SkipQuestionName(pre + (LabelsWire([]) + ([hi, lo] + y)), |pre|) == Some(|pre| + |LabelsWire([])| + 2)
  {
    assert (pre + (LabelsWire([]) + ([hi, lo] + y)))[|pre|] == hi;
  }

  /** An answer's name: a pointer into the message, or plain labels. */
  datatype Name = Pointer(hi: byte, lo: byte) | Plain(labels: seq<Bytes>)
  {
    predicate Good() {
      if Pointer? then hi >= 0xC0 else GoodLabels(labels)
    }

    function Wire(): Bytes {
      if Pointer? then [hi, lo] else NameWire(labels)
    }
  }

  datatype Answer = Answer(name: Name, kind: nat, classAndTtl: Bytes, data: Bytes)
  {
    predicate Good() {
      name.Good() && kind < 65536 && |classAndTtl| == 6 && |data| < 65536
    }

    function Wire(): Bytes
      requires Good()
    {
      name.Wire() + ([kind / 256, kind % 256] + (classAndTtl + ([|data| / 256, |data| % 256] + data)))
    }
  }

  function AnswersWire(xs: seq<Answer>): Bytes
    requires forall a :: a in xs ==> a.Good()
    decreases |xs|
  {
    if xs == [] then [] else xs[0].Wire() + AnswersWire(xs[1..])
  }

  /** What the answers mean: the data of the first A record. */
  function FirstA(xs: seq<Answer>): Option<Bytes>
    decreases |xs|
  {
    if xs == [] then None
    else if xs[0].kind == 1 && |xs[0].data| == 4 then Some(xs[0].data)
    else FirstA(xs[1..])
  }

  lemma SkipsAnswerName(pre: Bytes, name: Name, y: Bytes)
    requires name.Good()
    ensures SkipAnswerName(pre + (name.Wire() + y), |pre|) == Some(|pre| + |name.Wire()|)
  {
    var r := pre + (name.Wire() + y);
    if name.Plain? {
      SkipsName(pre, name.labels, y);
    } else {
      assert r[|pre|] == name.hi;
    }
  }

  /** The fixed fields of one answer, read back. */
  lemma ReadsAnswer(pre: Bytes, a: Answer, y: Bytes)
    requires a.Good()
    ensures
      var r, p := pre + (a.Wire() + y), |pre| + |a.name.Wire()|;
      && SkipAnswerName(r, |pre|) == Some(p)
      && p + 10 + |a.data| <= |r|
      && Be16(r, p) == a.kind && Be16(r, p + 8) == |a.data|
      && r[p + 10..p + 10 + |a.data|] == a.data
      && r == pre + a.Wire() + y && |pre + a.Wire()| == p + 10 + |a.data|
  {
    hide SkipAnswerName, Name.Wire, Name.Good;
    var w, n := a.name.Wire(), |a.data|;
    var fixed := [a.kind / 256, a.kind % 256] + (a.classAndTtl + ([n / 256, n % 256] + a.data));
    Assoc(w, fixed, y);
    SkipsAnswerName(pre, a.name, fixed + y);
    Assoc(pre, w, fixed + y);
    ReadsFixed(pre + w, a, y);
    Assoc(pre, a.Wire(), y);
  }

  lemma ReadsFixed(pre: Bytes, a: Answer, y: Bytes)
    requires a.kind < 65536 && |a.classAndTtl| == 6 && |a.data| < 65536
    ensures
      var n := |a.data|;
      var fixed := [a.kind / 256, a.kind % 256] + (a.classAndTtl + ([n / 256, n % 256] + a.data));
      var r, p := pre + (fixed + y), |pre|;
      && p + 10 + n <= |r| && Be16(r, p) == a.kind && Be16(r, p + 8) == n && r[p + 10..p + 10 + n] == a.data
  {
    var n := |a.data|;
    var fixed := [a.kind / 256, a.kind % 256] + (a.classAndTtl + ([n / 256, n % 256] + a.data));
    var r, p := pre + (fixed + y), |pre|;
    assert r[p] == fixed[0] && r[p + 1] == fixed[1] && r[p + 8] == fixed[8] && r[p + 9] == fixed[9];
    assert r[p + 10..p + 10 + n] == fixed[10..] == a.data;
  }

  lemma OneAnswer(r: Bytes, pos: nat, p: nat, kind: nat, len: nat, count: nat)
    requires count > 0 && SkipAnswerName(r, pos) == Some(p) && p + 10 + len <= |r|
    requires Be16(r, p) == kind && Be16(r, p + 8) == len
    ensures FirstAddress(r, pos, count) ==
      if kind == 1 && len == 4 then Some(r[p + 10..p + 10 + len]) else FirstAddress(r, p + 10 + len, count - 1)
  {
    hide SkipAnswerName, Be16;
  }

  /** One answer decides, or the search goes on behind it. */
  lemma AnswerDecides(pre: Bytes, a: Answer, z: Bytes, count: nat)
    requires a.Good() && count > 0
    ensures FirstAddress(pre + (a.Wire() + z), |pre|, count) ==
      if a.kind == 1 && |a.data| == 4 then Some(a.data)
      else FirstAddress((pre + a.Wire()) + z, |pre + a.Wire()|, count - 1)
  {
    hide SkipAnswerName, Be16, Answer.Wire, FirstAddress, Name.Wire, Name.Good, Answer.Good;
    ReadsAnswer(pre, a, z);
    OneAnswer(pre + (a.Wire() + z), |pre|, |pre| + |a.name.Wire()|, a.kind, |a.data|, count);
  }

  lemma {:induction false} FindsFirstA(pre: Bytes, xs: seq<Answer>, y: Bytes)
    requires forall a :: a in xs ==> a.Good()
    ensures FirstAddress(pre + (AnswersWire(xs) + y), |pre|, |xs|) == FirstA(xs)
    decreases |xs|
  {
    hide Answer.Wire, Answer.Good;
    if xs == [] {
    } else {
      hide FirstAddress;
      var a, rest := xs[0], AnswersWire(xs[1..]);
      assert a in xs;
      Assoc(a.Wire(), rest, y);
      AnswerDecides(pre, a, rest + y, |xs|);
      FindsFirstA(pre + a.Wire(), xs[1..], y);
    }
  }

  /** A response to the query: its header with the number of answers, the question again, the answers, anything. */
  function Response(header: Bytes, labels: seq<Bytes>, xs: seq<Answer>, y: Bytes): Bytes
    requires forall a :: a in xs ==> a.Good()
  {
    header + (NameWire(labels) + (QUESTION_TAIL + (AnswersWire(xs) + y)))
  }

  /** For every well-formed response the parser returns the first A record, or nothing if there is none. */
  lemma ResponseParses(header: Bytes, labels: seq<Bytes>, xs: seq<Answer>, y: Bytes)
    requires |header| == 12 && GoodLabels(labels) && (forall a :: a in xs ==> a.Good())
    requires Be16(header, 6) == |xs|
    ensures ParseResponse(Response(header, labels, xs, y)) == FirstA(xs)
  {
    hide Be16, FirstAddress, SkipQuestionName, NameWire, AnswersWire, GoodLabels;
    var name, rest := NameWire(labels), AnswersWire(xs) + y;
    var r := Response(header, labels, xs, y);
    CountInFront(header, name + (QUESTION_TAIL + rest), 6);
    SkipsName(header, labels, QUESTION_TAIL + rest);
    var pre := header + name + QUESTION_TAIL;
    Assoc(header, name, QUESTION_TAIL + rest);
    Assoc(header + name, QUESTION_TAIL, rest);
    FindsFirstA(pre, xs, y);
  }

  lemma CountInFront(a: Bytes, b: Bytes, i: nat)
    requires i + 1 < |a|
    ensures Be16(a + b, i) == Be16(a, i)
  {
  }
}
