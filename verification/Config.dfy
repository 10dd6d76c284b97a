/** Hot-patching the configuration: a recursive JSON merge guarded by the tier rule. */
module Config {
  import opened Bytes

  datatype Json =
    | Null
    | Bool(flag: bool)
    | Integer(integer: int)
    | Float(float: real)
    | Text(text: string)
    | Array(items: seq<Json>)
    | Object(fields: map<string, Json>)

  /** The field `k` of an object; a missing one counts as null. */
  function Entry(b: Json, k: string): Json
    requires b.Object?
  {
    if k in b.fields then b.fields[k] else Null
  }

  /** The value after a patch: objects are merged field by field, anything else is replaced. */
  function Merge(b: Json, p: Json): Json
    decreases p
  {
    if b.Object? && p.Object? then
      Object(map k | k in b.fields.Keys + p.fields.Keys ::
        if k in p.fields then Merge(Entry(b, k), p.fields[k]) else b.fields[k])
    else
      p
  }

  // ----- Paths

  type Path = seq<string>

  /** The value at a path, if every step of it is a field. */
  function At(v: Json, q: Path): Option<Json>
    decreases |q|
  {
    if q == [] then Some(v)
    else if v.Object? && q[0] in v.fields then At(v.fields[q[0]], q[1..])
    else None
  }

  /** The patch meets the document at `q` with a different value: this is where it reports a change. */
  predicate Reported(b: Json, p: Json, q: Path)
    decreases |q|
  {
    if b.Object? && p.Object? then
      q != [] && q[0] in p.fields && Reported(Entry(b, q[0]), p.fields[q[0]], q[1..])
    else
      q == [] && b != p
  }

  function Child(path: string, key: string): string {
    if path == "" then key else path + "." + key
  }

  /** How a path below `path` is written in the report. */
  function Dotted(path: string, q: Path): string
    decreases |q|
  {
    if q == [] then path else Dotted(Child(path, q[0]), q[1..])
  }

  /** `s` is the written form of a reported path. */
  ghost predicate ReportedAs(b: Json, p: Json, path: string, s: string) {
    exists q :: Reported(b, p, q) && Dotted(path, q) == s
  }

  // ----- Fields in the order of their names

  /** Names are ordered character by character. */
  predicate Precedes(a: string, b: string)
    decreases |a|
  {
    b != "" && (a == "" || a[0] < b[0] || (a[0] == b[0] && Precedes(a[1..], b[1..])))
  }

  lemma {:induction false} OneOrTheOther(a: string, b: string)
    ensures a == b || Precedes(a, b) || Precedes(b, a)
    ensures a != b ==> !(Precedes(a, b) && Precedes(b, a))
    decreases |a|
  {
    if a == "" || b == "" {
    } else {
      OneOrTheOther(a[1..], b[1..]);
      assert a == [a[0]] + a[1..] && b == [b[0]] + b[1..];
    }
  }

  lemma {:induction false} PrecedesTransitive(a: string, b: string, c: string)
    requires Precedes(a, b) && Precedes(b, c)
    ensures Precedes(a, c)
    decreases |a|
  {
    if a == "" {
    } else if a[0] == b[0] == c[0] {
      PrecedesTransitive(a[1..], b[1..], c[1..]);
    }
  }

  ghost predicate IsFirst(k: string, ks: set<string>) {
    k in ks && forall j :: j in ks ==> j == k || Precedes(k, j)
  }

  lemma {:induction false} FirstExists(ks: set<string>) returns (k: string)
    requires ks != {}
    ensures IsFirst(k, ks)
    decreases ks
  {
    var x :| x in ks;
    var rest := ks - {x};
    assert forall j :: j in ks && j != x ==> j in rest;
    if rest == {} {
      k := x;
    } else {
      var y := FirstExists(rest);
      OneOrTheOther(x, y);
      k := if Precedes(x, y) then x else y;
      forall j | j in ks && j != k ensures Precedes(k, j) {
        if k == x && j != y { PrecedesTransitive(x, y, j); }
      }
    }
  }

  lemma SomeIsFirst(ks: set<string>)
    requires ks != {}
    ensures exists k :: IsFirst(k, ks)
  {
    var k := FirstExists(ks);
  }

  ghost function First(ks: set<string>): (k: string)
    requires ks != {}
    ensures IsFirst(k, ks)
  {
    SomeIsFirst(ks);
    var k :| IsFirst(k, ks);
    k
  }

  ghost function InOrder(ks: set<string>): (s: seq<string>)
    ensures forall k :: k in s <==> k in ks
    decreases ks
  {
    if ks == {} then [] else [First(ks)] + InOrder(ks - {First(ks)})
  }

  lemma InOrderFrom(k: string, ks: set<string>)
    requires IsFirst(k, ks)
    ensures InOrder(ks) == [k] + InOrder(ks - {k})
  {
    OneOrTheOther(k, First(ks));
  }

  /** The report as a list: fields in the order of their names, each with what is below it. */
  ghost function Report(b: Json, p: Json, path: string): seq<string>
    decreases p, 1, 0
  {
    if b.Object? && p.Object? then ReportOfFields(b, p, path, InOrder(p.fields.Keys))
    else if b != p then [path]
    else []
  }

  ghost function ReportOfFields(b: Json, p: Json, path: string, ks: seq<string>): seq<string>
    requires b.Object? && p.Object? && forall k :: k in ks ==> k in p.fields
    decreases p, 0, |ks|
  {
    if ks == [] then []
    else Report(Entry(b, ks[0]), p.fields[ks[0]], Child(path, ks[0])) + ReportOfFields(b, p, path, ks[1..])
  }

  lemma ReportStep(b: Json, p: Json, path: string, k: string, todo: set<string>, changed: seq<string>,
                   below: seq<string>)
    requires b.Object? && p.Object? && todo <= p.fields.Keys && IsFirst(k, todo)
    requires below == Report(Entry(b, k), p.fields[k], Child(path, k))
    ensures changed + ReportOfFields(b, p, path, InOrder(todo)) ==
      (changed + below) + ReportOfFields(b, p, path, InOrder(todo - {k}))
  {
    hide Report, InOrder, IsFirst;
    InOrderFrom(k, todo);
    assert ([k] + InOrder(todo - {k}))[1..] == InOrder(todo - {k});
  }

  /** The merge: the new value, and the paths of exactly the places where the patch differs. */
  method Recurse(base: Json, patch: Json, path: string) returns (merged: Json, changed: seq<string>)
    ensures merged == Merge(base, patch)
    ensures forall s :: s in changed <==> ReportedAs(base, patch, path, s)
    ensures changed == Report(base, patch, path)
    decreases patch
  {
    hide ReportedAs, Child, IsFirst, ReportOfFields, InOrder;
    if base.Object? && patch.Object? {
      var fields := base.fields;
      changed := [];
      var todo := patch.fields.Keys;
      while todo != {}
        invariant todo <= patch.fields.Keys
        invariant fields.Keys == base.fields.Keys + (patch.fields.Keys - todo)
        invariant forall k :: k in fields ==>
          fields[k] ==
          if k in patch.fields && k !in todo then Merge(Entry(base, k), patch.fields[k]) else base.fields[k]
        invariant forall s :: s in changed <==> InFields(base, patch, path, patch.fields.Keys - todo, s)
        invariant changed + ReportOfFields(base, patch, path, InOrder(todo)) == Report(base, patch, path)
        decreases todo
      {
        var key := FirstOf(todo);
        var entry := if key in fields then fields[key] else Null;
        var value, below := Recurse(entry, patch.fields[key], Child(path, key));
        OneMoreField(base, patch, path, patch.fields.Keys - todo, key, changed, below);
        ReportStep(base, patch, path, key, todo, changed, below);
        fields := fields[key := value];
        changed := changed + below;
        todo := todo - {key};
        assert patch.fields.Keys - todo == patch.fields.Keys - (todo + {key}) + {key};
      }
      merged := Object(fields);
      hide Merge, InFields;
      NoMoreFields(base, patch, path);
      assert patch.fields.Keys - {} == patch.fields.Keys;
      AsFields(base, patch, path);
    } else {
      merged, changed := patch, if base != patch then [path] else [];
      AsWhole(base, patch, path);
    }
  }

  /** The fields come in the order of their names. */
  method FirstOf(ks: set<string>) returns (k: string)
    requires ks != {}
    ensures IsFirst(k, ks)
  {
    ghost var first := FirstExists(ks);
    k :| k in ks && forall j :: j in ks ==> j == k || Precedes(k, j);
  }

  lemma NoMoreFields(b: Json, p: Json, path: string)
    requires b.Object? && p.Object?
    ensures ReportOfFields(b, p, path, InOrder({})) == []
  {
  }

  /** `s` is reported below one of the fields `ks`. */
  ghost predicate InFields(b: Json, p: Json, path: string, ks: set<string>, s: string)
    requires b.Object? && p.Object? && ks <= p.fields.Keys
  {
    exists k :: k in ks && ReportedAs(Entry(b, k), p.fields[k], Child(path, k), s)
  }

  lemma OneMoreField(b: Json, p: Json, path: string, ks: set<string>, k: string, changed: seq<string>,
                     below: seq<string>)
    requires b.Object? && p.Object? && ks <= p.fields.Keys && k in p.fields
    requires forall s :: s in changed <==> InFields(b, p, path, ks, s)
    requires forall s :: s in below <==> ReportedAs(Entry(b, k), p.fields[k], Child(path, k), s)
    ensures forall s :: s in changed + below <==> InFields(b, p, path, ks + {k}, s)
  {
    hide ReportedAs, Child;
  }

  /** What is reported of two objects is what is reported below the patch's fields. */
  lemma AsFields(b: Json, p: Json, path: string)
    requires b.Object? && p.Object?
    ensures forall s :: InFields(b, p, path, p.fields.Keys, s) <==> ReportedAs(b, p, path, s)
  {
    forall s ensures InFields(b, p, path, p.fields.Keys, s) <==> ReportedAs(b, p, path, s) {
      if InFields(b, p, path, p.fields.Keys, s) {
        var k :| k in p.fields.Keys && ReportedAs(Entry(b, k), p.fields[k], Child(path, k), s);
        BelowField(b, p, path, k, s);
      }
      if ReportedAs(b, p, path, s) {
        var q :| Reported(b, p, q) && Dotted(path, q) == s;
        assert Reported(Entry(b, q[0]), p.fields[q[0]], q[1..]) && Dotted(Child(path, q[0]), q[1..]) == s;
      }
    }
  }

  lemma BelowField(b: Json, p: Json, path: string, k: string, s: string)
    requires b.Object? && p.Object? && k in p.fields && ReportedAs(Entry(b, k), p.fields[k], Child(path, k), s)
    ensures ReportedAs(b, p, path, s)
  {
    var q :| Reported(Entry(b, k), p.fields[k], q) && Dotted(Child(path, k), q) == s;
    assert ([k] + q)[1..] == q && ([k] + q)[0] == k;
    assert Reported(b, p, [k] + q) && Dotted(path, [k] + q) == s;
  }

  lemma AsWhole(b: Json, p: Json, path: string)
    requires !(b.Object? && p.Object?)
    ensures forall s :: s in (if b != p then [path] else []) <==> ReportedAs(b, p, path, s)
  {
    assert b != p ==> Reported(b, p, []);
    assert Dotted(path, []) == path;
  }

  // ----- How places are written

  /** The names of a path with dots between them. */
  function WithDots(q: Path): string
    decreases |q|
  {
    if q == [] then "" else if |q| == 1 then q[0] else q[0] + "." + WithDots(q[1..])
  }

  lemma {:induction false} DottedBelow(path: string, q: Path)
    requires path != ""
    ensures Dotted(path, q) == if q == [] then path else path + "." + WithDots(q)
    decreases |q|
  {
    if q == [] {
    } else {
      DottedBelow(Child(path, q[0]), q[1..]);
      if |q| > 1 {
        assert path + "." + q[0] + "." + WithDots(q[1..]) == path + "." + (q[0] + "." + WithDots(q[1..]));
      }
    }
  }

  /** A place is reported by its names with dots between them; empty names in front are lost. */
  lemma {:induction false} DottedIs(q: Path)
    requires q != []
    ensures Dotted("", q) == if q[0] != "" then WithDots(q) else Dotted("", q[1..])
  {
    if q[0] != "" { DottedBelow(q[0], q[1..]); }
  }

  /** Names are compared at the first character in which they differ, and a name comes before its extensions. */
  lemma {:induction false} PrecedesIff(a: string, b: string)
    ensures Precedes(a, b) <==> exists n :: DiffersAt(a, b, n)
    decreases |a|
  {
    if a == "" || b == "" || a[0] != b[0] {
      assert DiffersAt(a, b, 0) <==> b != "" && (a == "" || a[0] < b[0]);
    } else {
      PrecedesIff(a[1..], b[1..]);
      forall n | n > 0 ensures DiffersAt(a, b, n) <==> DiffersAt(a[1..], b[1..], n - 1) {
        assert n <= |a| && n <= |b| ==> a[..n] == [a[0]] + a[1..][..n - 1] && b[..n] == [b[0]] + b[1..][..n - 1];
      }
      assert forall n :: DiffersAt(a[1..], b[1..], n) ==> DiffersAt(a, b, n + 1);
    }
  }

  predicate DiffersAt(a: string, b: string, n: int) {
    0 <= n <= |a| && n < |b| && a[..n] == b[..n] && (n == |a| || a[n] < b[n])
  }

  // ----- Twice is once

  lemma {:induction false} MergeSelf(p: Json)
    ensures Merge(p, p) == p
    decreases p
  {
    if !p.Object? {
    } else {
      forall k | k in p.fields ensures Merge(Entry(p, k), p.fields[k]) == p.fields[k] {
        MergeSelf(p.fields[k]);
      }
      assert Merge(p, p).fields == p.fields;
    }
  }

  /** A patch applied again changes nothing. */
  lemma {:induction false} MergeTwice(b: Json, p: Json)
    ensures Merge(Merge(b, p), p) == Merge(b, p)
    decreases p
  {
    if b.Object? && p.Object? {
      var m := Merge(b, p);
      forall k | k in p.fields ensures Merge(Entry(m, k), p.fields[k]) == m.fields[k] {
        MergeTwice(Entry(b, k), p.fields[k]);
      }
      assert Merge(m, p).fields == m.fields;
    } else {
      MergeSelf(p);
    }
  }

  lemma {:induction false} NothingInSelf(p: Json, q: Path)
    ensures !Reported(p, p, q)
    decreases |q|
  {
    if p.Object? && q != [] && q[0] in p.fields { NothingInSelf(p.fields[q[0]], q[1..]); }
  }

  /** A patch applied again reports nothing. */
  lemma {:induction false} NothingTwice(b: Json, p: Json, q: Path)
    ensures !Reported(Merge(b, p), p, q)
    decreases |q|
  {
    if !(b.Object? && p.Object?) {
      NothingInSelf(p, q);
    } else if q != [] && q[0] in p.fields {
      NothingTwice(Entry(b, q[0]), p.fields[q[0]], q[1..]);
    }
  }

  // ----- What is where afterwards

  /** The path leaves the patch through an object that the document has too. */
  predicate OffPatch(b: Json, p: Json, q: Path)
    decreases |q|
  {
    b.Object? && p.Object? && q != [] &&
    if q[0] in p.fields then OffPatch(Entry(b, q[0]), p.fields[q[0]], q[1..]) else true
  }

  /** Paths off the patch are untouched. */
  lemma {:induction false} OffPatchUntouched(b: Json, p: Json, q: Path)
    requires OffPatch(b, p, q)
    ensures At(Merge(b, p), q) == At(b, q)
    decreases |q|
  {
    if q[0] !in p.fields {
    } else {
      OffPatchUntouched(Entry(b, q[0]), p.fields[q[0]], q[1..]);
    }
  }

  /** Everything else is as in the patch: a value that is no object is found at its path, and nothing below it. */
  lemma {:induction false} OnPatchFound(b: Json, p: Json, q: Path)
    requires !OffPatch(b, p, q)
    ensures At(p, q).None? ==> At(Merge(b, p), q).None?
    ensures At(p, q).Some? && !At(p, q).value.Object? ==> At(Merge(b, p), q) == At(p, q)
    ensures At(p, q).Some? && At(p, q).value.Object? ==>
      At(Merge(b, p), q) == Some(match At(b, q) case Some(v) => Merge(v, At(p, q).value) case None => At(p, q).value)
    decreases |q|
  {
    if !(b.Object? && p.Object? && q != []) {
    } else {
      OnPatchFound(Entry(b, q[0]), p.fields[q[0]], q[1..]);
    }
  }

  /** The kind of value at a path: missing counts as null, and an object only as an object. */
  function View(v: Json, q: Path): Json {
    match At(v, q)
    case None => Null
    case Some(x) => if x.Object? then Object(map[]) else x
  }

  /** A reported place holds the patch's value, and held another one before. */
  lemma {:induction false} ReportedChanges(b: Json, p: Json, q: Path)
    requires Reported(b, p, q)
    ensures At(p, q).Some? && At(Merge(b, p), q) == At(p, q)
    ensures (match At(b, q) case None => Null case Some(v) => v) != At(p, q).value
    decreases |q|
  {
    if !(b.Object? && p.Object?) {
    } else {
      var e := Entry(b, q[0]);
      ReportedChanges(e, p.fields[q[0]], q[1..]);
    }
  }

  /** Nothing changes its view but at or below a reported place. */
  lemma {:induction false} ChangeIsReported(b: Json, p: Json, q: Path) returns (n: nat)
    requires View(Merge(b, p), q) != View(b, q)
    ensures n <= |q| && Reported(b, p, q[..n])
    decreases |q|
  {
    if b.Object? && p.Object? {
      assert q != [];
      var j := ChangeIsReported(Entry(b, q[0]), p.fields[q[0]], q[1..]);
      n := 1 + j;
      assert q[..n][1..] == q[1..][..j] && q[..n][0] == q[0];
    } else {
      n := 0;
    }
  }

  /** Nothing is reported. */
  ghost predicate Quiet(b: Json, p: Json) {
    forall q :: !Reported(b, p, q)
  }

  /** The report is empty exactly when no path shows another value than before. */
  lemma ReportIsEmptyIff(b: Json, p: Json)
    ensures Quiet(b, p) <==> (forall q :: View(Merge(b, p), q) == View(b, q))
  {
    if Quiet(b, p) {
      forall q ensures View(Merge(b, p), q) == View(b, q) {
        if View(Merge(b, p), q) != View(b, q) {
          var n := ChangeIsReported(b, p, q);
        }
      }
    } else {
      var q :| Reported(b, p, q);
      ReportedView(b, p, q);
    }
  }

  /** A reported place shows another value than before. */
  lemma ReportedView(b: Json, p: Json, q: Path)
    requires Reported(b, p, q)
    ensures View(Merge(b, p), q) != View(b, q)
  {
    MeetingPoint(b, p, q);
    ReportedChanges(b, p, q);
    hide Merge, Reported, At;
  }

  /** Two objects never meet at a reported place. */
  lemma {:induction false} MeetingPoint(b: Json, p: Json, q: Path)
    requires Reported(b, p, q)
    ensures At(p, q).Some? && At(b, q).Some? ==> !(At(p, q).value.Object? && At(b, q).value.Object?)
    decreases |q|
  {
    if !(b.Object? && p.Object?) {
    } else {
      MeetingPoint(Entry(b, q[0]), p.fields[q[0]], q[1..]);
    }
  }

  /** The patch sets a field to null that the document does not have. */
  predicate AddsNull(b: Json, p: Json)
    decreases p
  {
    b.Object? && p.Object? &&
    exists k :: k in p.fields && if k in b.fields then AddsNull(b.fields[k], p.fields[k]) else p.fields[k].Null?
  }

  lemma QuietFields(b: Json, p: Json)
    requires b.Object? && p.Object?
    ensures Quiet(b, p) <==> forall k :: k in p.fields ==> Quiet(Entry(b, k), p.fields[k])
  {
    if Quiet(b, p) {
      forall k, q | k in p.fields ensures !Reported(Entry(b, k), p.fields[k], q) {
        assert ([k] + q)[1..] == q && ([k] + q)[0] == k;
        assert !Reported(b, p, [k] + q);
      }
    } else {
      var q :| Reported(b, p, q);
      assert Reported(Entry(b, q[0]), p.fields[q[0]], q[1..]);
      assert !Quiet(Entry(b, q[0]), p.fields[q[0]]);
    }
  }

  lemma QuietWhole(b: Json, p: Json)
    requires !(b.Object? && p.Object?)
    ensures Quiet(b, p) <==> b == p
  {
    assert Reported(b, p, []) <==> b != p;
  }

  lemma MergedFields(b: Json, p: Json)
    requires b.Object? && p.Object?
    ensures Merge(b, p).Object? && Merge(b, p).fields.Keys == b.fields.Keys + p.fields.Keys
    ensures forall k :: k in p.fields ==> Merge(b, p).fields[k] == Merge(Entry(b, k), p.fields[k])
    ensures forall k :: k in b.fields && k !in p.fields ==> Merge(b, p).fields[k] == b.fields[k]
  {
  }

  predicate FieldUnchanged(b: Json, p: Json, k: string)
    requires b.Object? && p.Object? && k in p.fields
  {
    k in b.fields && Merge(b.fields[k], p.fields[k]) == b.fields[k]
  }

  lemma UnchangedFields(b: Json, p: Json)
    requires b.Object? && p.Object?
    ensures Merge(b, p) == b <==> forall k :: k in p.fields ==> FieldUnchanged(b, p, k)
  {
    MergedFields(b, p);
    var m := Merge(b, p);
    if m == b {
      forall k | k in p.fields ensures FieldUnchanged(b, p, k) {
        hide Merge;
        assert k in m.fields;
      }
    }
    if forall k :: k in p.fields ==> FieldUnchanged(b, p, k) {
      hide Merge;
      forall k | k in m.fields ensures k in b.fields && m.fields[k] == b.fields[k] {
        assert k in p.fields ==> FieldUnchanged(b, p, k);
      }
      assert m.fields == b.fields;
    }
  }

  /** A patch leaves the document alone exactly when it reports nothing and adds no null. */
  lemma {:induction false} UnchangedIff(b: Json, p: Json)
    ensures Merge(b, p) == b <==> Quiet(b, p) && !AddsNull(b, p)
    decreases p
  {
    if b.Object? && p.Object? {
      QuietFields(b, p);
      UnchangedFields(b, p);
      hide Merge, Quiet;
      forall k | k in p.fields && k in b.fields
        ensures Merge(b.fields[k], p.fields[k]) == b.fields[k] <==>
          Quiet(b.fields[k], p.fields[k]) && !AddsNull(b.fields[k], p.fields[k])
      {
        UnchangedIff(b.fields[k], p.fields[k]);
      }
      forall k | k in p.fields && k !in b.fields ensures Quiet(Null, p.fields[k]) <==> p.fields[k].Null? {
        QuietWhole(Null, p.fields[k]);
      }
    } else {
      QuietWhole(b, p);
    }
  }

  /** A null for a missing field adds the field and is not reported. */
  lemma SilentNull(k: string)
    ensures
      var b, p := Object(map[]), Object(map[k := Null]);
      Quiet(b, p) && Merge(b, p) != b
  {
    var b, p := Object(map[]), Object(map[k := Null]);
    QuietFields(b, p);
    QuietWhole(Null, Null);
    UnchangedFields(b, p);
    assert p.fields[k] == Null && k in p.fields && k !in b.fields;
    hide Merge, Quiet;
    assert forall j :: j in p.fields ==> j == k;
  }

  // ----- The guarded configuration

  datatype Tiers = Tiers(regex: bool, ner: bool, slm: bool)

  /** The configuration: what the rules look at, and the rest. */
  datatype Settings = Settings(tiers: Tiers, listen: string, dashboard: string, networkListen: string, rest: Json)

  datatype Outcome =
    | Patched(restartRequired: bool, changedKeys: seq<string>)
    | Undecodable
    | TierRuleBroken

  predicate TierRule(t: Tiers) {
    t.ner ==> t.regex
  }

  predicate RequiresRestart(a: Settings, b: Settings) {
    a.listen != b.listen || a.dashboard != b.dashboard || a.networkListen != b.networkListen
  }

  /** No restart is asked for exactly if all three addresses stay, whatever else changes. */
  lemma RestartIff(a: Settings, b: Settings)
    ensures !RequiresRestart(a, b) <==> b == a.(tiers := b.tiers, rest := b.rest)
  {
  }

  /** The settings after a patch; the encoding and decoding of settings are parameters. */
  function After(c: Settings, patch: Json, encode: Settings -> Json, decode: Json -> Option<Settings>): Settings {
    match decode(Merge(encode(c), patch))
    case None => c
    case Some(next) => if TierRule(next.tiers) then next else c
  }

  class ConfigManager {
    var config: Settings

    constructor (c: Settings)
      ensures config == c
    {
      config := c;
    }

    /** A patch is applied as a whole or rejected without effect. */
    method Patch(patch: Json, encode: Settings -> Json, decode: Json -> Option<Settings>) returns (r: Outcome)
      modifies this
      ensures config == After(old(config), patch, encode, decode)
      ensures !r.Patched? ==> config == old(config)
      ensures r.Undecodable? <==> decode(Merge(encode(old(config)), patch)).None?
      ensures
        var next := decode(Merge(encode(old(config)), patch));
        r.TierRuleBroken? <==> next.Some? && !TierRule(next.value.tiers)
      ensures r.Patched? ==>
        && decode(Merge(encode(old(config)), patch)) == Some(config)
        && TierRule(config.tiers)
        && r.restartRequired == RequiresRestart(old(config), config)
        && r.changedKeys == Report(encode(old(config)), patch, "")
        && forall s :: s in r.changedKeys <==> ReportedAs(encode(old(config)), patch, "", s)
    {
      hide Merge, ReportedAs, Report;
      var json, changed := Recurse(encode(config), patch, "");
      var next := decode(json);
      if next.None? { return Undecodable; }
      if next.value.tiers.ner && !next.value.tiers.regex { return TierRuleBroken; }
      var restart := RequiresRestart(config, next.value);
      config := next.value;
      return Patched(restart, changed);
    }
  }

  /** The settings after a list of patches. */
  function Run(c: Settings, patches: seq<Json>, encode: Settings -> Json, decode: Json -> Option<Settings>): Settings
    decreases |patches|
  {
    if patches == [] then c else Run(After(c, patches[0], encode, decode), patches[1..], encode, decode)
  }

  /** The tier rule holds after every list of patches, whatever the encoding does. */
  lemma {:induction false} RunKeepsTierRule(
      c: Settings, patches: seq<Json>, encode: Settings -> Json, decode: Json -> Option<Settings>)
    requires TierRule(c.tiers)
    ensures TierRule(Run(c, patches, encode, decode).tiers)
    decreases |patches|
  {
    if patches == [] {
    } else {
      RunKeepsTierRule(After(c, patches[0], encode, decode), patches[1..], encode, decode);
    }
  }

  /**
   * A patch sent again is accepted, keeps the settings and reports nothing, if the first one was accepted and the
   * settings it gave encode to the merged document.
   */
  lemma PatchAgain(c: Settings, patch: Json, encode: Settings -> Json, decode: Json -> Option<Settings>)
    requires var m := Merge(encode(c), patch);
      decode(m).Some? && TierRule(decode(m).value.tiers) && encode(decode(m).value) == m
    ensures
      var c1 := After(c, patch, encode, decode);
      && After(c1, patch, encode, decode) == c1
      && decode(Merge(encode(c1), patch)) == Some(c1)
      && forall s :: !ReportedAs(encode(c1), patch, "", s)
  {
    MergeTwice(encode(c), patch);
    forall q ensures !Reported(Merge(encode(c), patch), patch, q) {
      NothingTwice(encode(c), patch, q);
    }
  }
}
