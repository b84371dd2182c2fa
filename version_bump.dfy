// The No.3 bump script: the patch number of package.json's version is
// raised by one and the new version is written to package.json and to
// the Tauri config, at `package.version` (Tauri v1) or `version`
// (Tauri v2).

module VersionBump {
  import opened Common
  import opened JsonValue

  // ---------------------------------------------------------------------
  // `version.split('.')`
  // ---------------------------------------------------------------------

  /** `String.prototype.split` with a one-character separator. */
  function Split(s: string, c: char): (r: seq<string>)
    ensures r != []
    ensures forall i :: 0 <= i < |r| ==> c !in r[i]
    decreases |s|
  {
    if s == [] then [[]]
    else
      var rest := Split(s[1..], c);
      if s[0] == c then [[]] + rest else [[s[0]] + rest[0]] + rest[1..]
  }

  /** Joining the pieces with the separator gives the text back. */
  lemma {:induction false} SplitJoin(s: string, c: char)
    ensures Join(Split(s, c), [c]) == s
    decreases |s|
  {
    if s != [] {
      var rest := Split(s[1..], c);
      SplitJoin(s[1..], c);
      if s[0] == c {
        assert Split(s, c)[1..] == rest;
      } else {
        var r := Split(s, c);
        if |rest| == 1 {
          assert r == [[s[0]] + rest[0]];
        } else {
          assert r[1..] == rest[1..];
          assert Join(rest, [c]) == rest[0] + [c] + Join(rest[1..], [c]);
        }
      }
      assert s == [s[0]] + s[1..];
    }
  }

  /** A piece without the separator followed by the separator is split
      off whole. */
  lemma {:induction false} SplitAfterPiece(a: string, c: char, t: string)
    requires c !in a
    ensures Split(a + [c] + t, c) == [a] + Split(t, c)
    decreases |a|
  {
    if a == [] {
      assert [c] + t == [c] + t;
      assert ([c] + t)[1..] == t;
    } else {
      assert (a + [c] + t)[1..] == a[1..] + [c] + t;
      SplitAfterPiece(a[1..], c, t);
      assert [a[0]] + a[1..] == a;
    }
  }

  /** A piece without the separator is not split. */
  lemma {:induction false} SplitWhole(a: string, c: char)
    requires c !in a
    ensures Split(a, c) == [a]
    decreases |a|
  {
    if a != [] {
      SplitWhole(a[1..], c);
      assert [a[0]] + a[1..] == a;
    }
  }

  /** Splitting joined pieces that hold no separator gives them back. */
  lemma {:induction false} JoinSplit(parts: seq<string>, c: char)
    requires parts != [] && forall i :: 0 <= i < |parts| ==> c !in parts[i]
    ensures Split(Join(parts, [c]), c) == parts
  {
    if |parts| == 1 {
      SplitWhole(parts[0], c);
    } else {
      JoinSplit(parts[1..], c);
      SplitAfterPiece(parts[0], c, Join(parts[1..], [c]));
      assert [parts[0]] + parts[1..] == parts;
    }
  }

  // ---------------------------------------------------------------------
  // `.map(Number)` and `join('.')`
  // ---------------------------------------------------------------------

  /** A JavaScript number as the script can meet it: an integer or NaN. */
  datatype Num = Int(i: int) | NaN

  predicate AllDigits(t: string) {
    forall i :: 0 <= i < |t| ==> IsDigit(t[i])
  }

  /** The value of a run of decimal digits. */
  function DigitsValue(t: string): nat
    requires AllDigits(t)
    decreases |t|
  {
    if t == [] then 0
    else DigitsValue(t[..|t| - 1]) * 10 + (t[|t| - 1] as int - '0' as int)
  }

  /** `Number(t)` for the decimal forms: surrounding whitespace is ignored,
      the empty text is 0, an optional sign may precede the digits, and
      anything else is NaN. */
  function ToNumber(t: string): Num {
    var u := Trim(t);
    if u == [] then Int(0)
    else if AllDigits(u) then Int(DigitsValue(u))
    else if |u| > 1 && (u[0] == '+' || u[0] == '-') && AllDigits(u[1..]) then
      var m: int := DigitsValue(u[1..]);
      Int(if u[0] == '-' then -m else m)
    else NaN
  }

  /** The decimal form of a number reads back as that number. */
  lemma {:induction false} DigitsValueOf(n: nat)
    ensures AllDigits(NatToString(n)) && DigitsValue(NatToString(n)) == n
    decreases n
  {
    NatToStringDigits(n);
    if n >= 10 {
      DigitsValueOf(n / 10);
      var t := NatToString(n);
      assert t[..|t| - 1] == NatToString(n / 10);
    }
  }

  /** `Number(String(i)) == i`. */
  lemma ToNumberOfIntText(i: int)
    ensures ToNumber(IntText(i)) == Int(i)
  {
    var d := if i < 0 then -i else i;
    DigitsValueOf(d);
    var t := IntText(i);
    var digits := NatToString(d);
    assert t[|t| - 1] == digits[|digits| - 1];
    TrimNoop(t);
    if i < 0 {
      assert t[1..] == digits;
      assert !IsDigit(t[0]);
    }
  }

  function Numbers(ts: seq<string>): (r: seq<Num>)
    ensures |r| == |ts| && forall i :: 0 <= i < |ts| ==> r[i] == ToNumber(ts[i])
  {
    if ts == [] then [] else [ToNumber(ts[0])] + Numbers(ts[1..])
  }

  /** The numbers of a version: `version.split('.').map(Number)`. */
  function Parts(v: string): (r: seq<Num>)
    ensures r != []
  {
    Numbers(Split(v, '.'))
  }

  /** An array element: a number, or a hole that no assignment filled. */
  datatype Slot = Value(n: Num) | Hole

  /** The element read as a number: a hole is `undefined`, which `+ 1`
      turns into NaN. */
  function AsNumber(x: Slot): Num {
    match x
    case Value(n) => n
    case Hole => NaN
  }

  function Add1(n: Num): Num {
    match n
    case Int(i) => Int(i + 1)
    case NaN => NaN
  }

  /** The element as `join` prints it: holes are empty. */
  function SlotText(x: Slot): string {
    match x
    case Value(Int(i)) => IntText(i)
    case Value(NaN) => "NaN"
    case Hole => ""
  }

  function SlotTexts(xs: seq<Slot>): (r: seq<string>)
    ensures |r| == |xs| && forall i :: 0 <= i < |xs| ==> r[i] == SlotText(xs[i])
  {
    if xs == [] then [] else [SlotText(xs[0])] + SlotTexts(xs[1..])
  }

  /** The array after `versionParts[2] += 1`: element 2 is raised by one,
      the array grows to three elements if it was shorter, and a skipped
      element 1 is a hole. */
  function Incremented(parts: seq<Num>): (r: seq<Slot>)
  {
    var n := if |parts| < 3 then 3 else |parts|;
    seq(n, i requires 0 <= i < n =>
      if i == 2 then Value(if |parts| > 2 then Add1(parts[2]) else NaN)
      else if i < |parts| then Value(parts[i])
      else Hole)
  }

  /** `versionParts[2] += 1` on the array of parts. */
  method IncrementPatch(parts: seq<Num>) returns (slots: seq<Slot>)
    ensures slots == Incremented(parts)
  {
    var n := if |parts| < 3 then 3 else |parts|;
    var a := new Slot[n](i => if 0 <= i < |parts| then Value(parts[i]) else Hole);
    a[2] := Value(Add1(AsNumber(a[2])));
    slots := a[..];
  }

  /** `versionParts.join('.')` after the increment. */
  function NewVersion(v: string): string {
    Join(SlotTexts(Incremented(Parts(v))), ".")
  }

  /** The texts of the incremented integers: each one's decimal form,
      which holds no dot. */
  lemma IncrementedTexts(parts: seq<Num>)
    requires |parts| >= 3 && forall i :: 0 <= i < |parts| ==> parts[i].Int?
    ensures var want := parts[2 := Int(parts[2].i + 1)];
      var texts := SlotTexts(Incremented(parts));
      && |texts| == |want|
      && forall i :: 0 <= i < |texts| ==> texts[i] == IntText(want[i].i) && '.' !in texts[i]
  {
    var want := parts[2 := Int(parts[2].i + 1)];
    var texts := SlotTexts(Incremented(parts));
    forall i | 0 <= i < |texts| ensures texts[i] == IntText(want[i].i) && '.' !in texts[i] {
      var d := if want[i].i < 0 then -want[i].i else want[i].i;
      NatToStringDigits(d);
    }
  }

  /** Decimal forms read back as their integers. */
  lemma NumbersOfTexts(texts: seq<string>, want: seq<Num>)
    requires |texts| == |want|
    requires forall i :: 0 <= i < |texts| ==> want[i].Int? && texts[i] == IntText(want[i].i)
    ensures Numbers(texts) == want
  {
    forall i | 0 <= i < |texts| ensures ToNumber(texts[i]) == want[i] {
      ToNumberOfIntText(want[i].i);
    }
  }

  /** For a version of at least three numbers, reading the new version
      back gives the same numbers, as many of them, with the third one
      raised by one. */
  lemma PatchBumped(v: string)
    requires |Parts(v)| >= 3 && forall i :: 0 <= i < |Parts(v)| ==> Parts(v)[i].Int?
    ensures Parts(NewVersion(v)) == Parts(v)[2 := Int(Parts(v)[2].i + 1)]
  {
    var parts := Parts(v);
    var want := parts[2 := Int(parts[2].i + 1)];
    var texts := SlotTexts(Incremented(parts));
    IncrementedTexts(parts);
    JoinSplit(texts, '.');
    NumbersOfTexts(texts, want);
  }

  /** A version of fewer than three parts gets `NaN` as its third number. */
  lemma ShortVersionGetsNaN(v: string)
    requires |Parts(v)| < 3
    ensures |NewVersion(v)| >= 4 && NewVersion(v)[|NewVersion(v)| - 4..] == ".NaN"
  {
    var texts := SlotTexts(Incremented(Parts(v)));
    assert |texts| == 3 && texts[2] == "NaN";
    assert texts[1..][1..] == ["NaN"];
    assert Join(texts[1..], ".") == texts[1] + "." + "NaN";
    assert Join(texts, ".") == texts[0] + "." + (texts[1] + "." + "NaN");
    var head := texts[0] + "." + texts[1];
    assert Join(texts, ".") == head + ".NaN";
    assert (head + ".NaN")[|head|..] == ".NaN";
  }

  // ---------------------------------------------------------------------
  // The script
  // ---------------------------------------------------------------------

  /** How the script ends: normally, through `process.exit`, or with an
      uncaught exception. */
  datatype Outcome = Finished | Exited(code: int) | Crashed

  /** `pkg.version` as the script uses it: a string, or an exception
      (`null` has no members, and anything but a string has no `split`). */
  function VersionOf(pkg: Json): (r: Option<string>)
    ensures r.Some? <==> pkg.Obj? && "version" in pkg.members && pkg.members["version"].Str?
    ensures r.Some? ==> Get(pkg, "version") == Some(Str(r.value))
  {
    if pkg.Obj? && "version" in pkg.members && pkg.members["version"].Str? then
      Some(pkg.members["version"].s)
    else None
  }

  /** The Tauri v1 layout: `tauriConf.package && tauriConf.package.version`. */
  predicate IsV1(conf: Json)
    requires !conf.Null?
  {
    Truthy(Get(conf, "package")) && Truthy(Get(Get(conf, "package").value, "version"))
  }

  /** The Tauri config with the new version at the place its layout has. */
  function ConfigWith(conf: Json, nv: string): (r: Json)
    requires !conf.Null?
  {
    if IsV1(conf) then
      var pkg := Get(conf, "package").value;
      Put(conf, "package", Put(pkg, "version", Str(nv)).value).value
    else Put(conf, "version", Str(nv)).value
  }

  /** What the script ends with and the two files after it. */
  function Bumped(pkg: Option<Doc>, conf: Option<Doc>): (Outcome, Option<Doc>, Option<Doc>)
  {
    if pkg.None? then (Exited(1), pkg, conf)
    else if pkg.value.Malformed? || VersionOf(pkg.value.value).None? then (Crashed, pkg, conf)
    else
      var nv := NewVersion(VersionOf(pkg.value.value).value);
      var pkg' := Some(Parsed(Put(pkg.value.value, "version", Str(nv)).value));
      if conf.None? then (Finished, pkg', conf)
      else if conf.value.Malformed? || conf.value.value.Null? then (Crashed, pkg', conf)
      else (Finished, pkg', Some(Parsed(ConfigWith(conf.value.value, nv))))
  }

  /** Without package.json the script exits with status 1 and writes
      nothing. */
  lemma NoPackageNoWrite(conf: Option<Doc>)
    ensures Bumped(None, conf) == (Exited(1), None, conf)
  {
  }

  /** A package.json with a string version gets the new version, keeps
      its other members, and without a Tauri config nothing else is
      written. */
  lemma PackageGetsNewVersion(p: Json, conf: Option<Doc>, key: string)
    requires VersionOf(p).Some?
    ensures var (_, pkg', conf') := Bumped(Some(Parsed(p)), conf);
      && pkg'.Some? && pkg'.value.Parsed?
      && Get(pkg'.value.value, "version") == Some(Str(NewVersion(VersionOf(p).value)))
      && (key != "version" ==> Get(pkg'.value.value, key) == Get(p, key))
      && (conf.None? ==> conf' == None && Bumped(Some(Parsed(p)), conf).0 == Finished)
  {
    PutThenGet(p, "version", Str(NewVersion(VersionOf(p).value)));
    if key != "version" {
      PutKeepsOthers(p, "version", Str(NewVersion(VersionOf(p).value)), key);
    }
  }

  /** The Tauri config gets the same new version: at `package.version` in
      the v1 layout, where the top-level `version` is kept, and at the top
      level otherwise, where `package` is kept. */
  lemma ConfigGetsSameVersion(p: Json, c: Json)
    requires VersionOf(p).Some? && c.Obj?
    ensures var (outcome, pkg', conf') := Bumped(Some(Parsed(p)), Some(Parsed(c)));
      && outcome == Finished
      && conf'.Some? && conf'.value.Parsed?
      && var c' := conf'.value.value;
      && (IsV1(c) ==> Get(c', "package").Some? && !Get(c', "package").value.Null?
                      && Get(Get(c', "package").value, "version") == Get(pkg'.value.value, "version")
                      && Get(c', "version") == Get(c, "version"))
      && (!IsV1(c) ==> Get(c', "version") == Get(pkg'.value.value, "version")
                       && Get(c', "package") == Get(c, "package"))
  {
    var nv := NewVersion(VersionOf(p).value);
    PutThenGet(p, "version", Str(nv));
    if IsV1(c) {
      var inner := Get(c, "package").value;
      PutThenGet(inner, "version", Str(nv));
      var inner' := Put(inner, "version", Str(nv)).value;
      PutThenGet(c, "package", inner');
      PutKeepsOthers(c, "package", inner', "version");
    } else {
      PutThenGet(c, "version", Str(nv));
      PutKeepsOthers(c, "version", Str(nv), "package");
    }
  }

  /** A Tauri config that does not parse crashes the script after
      package.json has been written. */
  lemma MalformedConfigAfterPackage(p: Json)
    requires VersionOf(p).Some?
    ensures var (outcome, pkg', conf') := Bumped(Some(Parsed(p)), Some(Malformed));
      && outcome == Crashed && conf' == Some(Malformed)
      && pkg'.Some? && pkg'.value.Parsed?
      && Get(pkg'.value.value, "version") == Some(Str(NewVersion(VersionOf(p).value)))
  {
    PutThenGet(p, "version", Str(NewVersion(VersionOf(p).value)));
  }

  /** The two files of the Attendance project. */
  class Project {
    var packageJson: Option<Doc>
    var tauriConfig: Option<Doc>

    constructor(pkg: Option<Doc>, conf: Option<Doc>)
      ensures packageJson == pkg && tauriConfig == conf
    {
      packageJson, tauriConfig := pkg, conf;
    }

    /** scripts/bump.js. */
    method Bump() returns (outcome: Outcome)
      modifies this
      ensures (outcome, packageJson, tauriConfig) == Bumped(old(packageJson), old(tauriConfig))
    {
      if packageJson.None? {
        return Exited(1);
      }
      if packageJson.value.Malformed? {
        return Crashed;
      }
      var pkg := packageJson.value.value;
      var version := VersionOf(pkg);
      if version.None? {
        return Crashed;
      }
      var parts := Parts(version.value);
      var slots := IncrementPatch(parts);
      var nv := Join(SlotTexts(slots), ".");
      packageJson := Some(Parsed(Put(pkg, "version", Str(nv)).value));
      if tauriConfig.None? {
        return Finished;
      }
      if tauriConfig.value.Malformed? || tauriConfig.value.value.Null? {
        return Crashed;
      }
      tauriConfig := Some(Parsed(ConfigWith(tauriConfig.value.value, nv)));
      outcome := Finished;
    }
  }
}
