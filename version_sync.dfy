// The No.1 version-sync script: the `x.y.z` check on the argument, the
// rewrite of the first `version = "…"` line of Cargo.toml, and the
// sequence of file updates in `runSync`.

module VersionSync {
  import opened Common
  import opened JsonValue

  // ---------------------------------------------------------------------
  // The version check `/^\d+\.\d+\.\d+/`
  // ---------------------------------------------------------------------

  /** The length of the run of decimal digits at the start of `s`. */
  function LeadingDigits(s: string): (n: nat)
    ensures n <= |s|
    ensures forall i :: 0 <= i < n ==> IsDigit(s[i])
    ensures n < |s| ==> !IsDigit(s[n])
  {
    if s != [] && IsDigit(s[0]) then 1 + LeadingDigits(s[1..]) else 0
  }

  /** `\d+` followed `dots` times by `\.\d+` at the start of `s`: the
      text after the match. */
  function NumbersFrom(s: string, dots: nat): (r: Option<string>)
    ensures r.Some? ==> |r.value| < |s|
  {
    var n := LeadingDigits(s);
    if n == 0 then None
    else if dots == 0 then Some(s[n..])
    else if n < |s| && s[n] == '.' then NumbersFrom(s[n + 1..], dots - 1)
    else None
  }

  /** The regular expression test of sync-version.cjs: three dotted
      numbers at the start, anything after them. */
  predicate HasVersionPrefix(s: string) {
    NumbersFrom(s, 2).Some?
  }

  /** A non-empty run of decimal digits. */
  predicate Digits(t: string) {
    t != [] && forall i :: 0 <= i < |t| ==> IsDigit(t[i])
  }

  /** `s` starts with the numbers `parts` joined by dots. */
  predicate DottedPrefix(s: string, parts: seq<string>) {
    && parts != []
    && (forall i :: 0 <= i < |parts| ==> Digits(parts[i]))
    && Join(parts, ".") <= s
  }

  lemma JoinDot(parts: seq<string>)
    requires |parts| > 1
    ensures Join(parts, ".") == parts[0] + ("." + Join(parts[1..], "."))
  {
  }

  /** A run of digits that stops at a non-digit is the whole leading run. */
  lemma LeadingDigitsOf(s: string, t: string)
    requires Digits(t) && t <= s && (|t| == |s| || !IsDigit(s[|t|]))
    ensures LeadingDigits(s) == |t|
  {
  }

  /** One more number in front of a dotted prefix. */
  lemma DottedCons(s: string, a: string, t: string, more: seq<string>)
    requires Digits(a) && s == a + ("." + t) && DottedPrefix(t, more)
    ensures DottedPrefix(s, [a] + more)
  {
    var parts := [a] + more;
    assert parts[1..] == more;
    JoinDot(parts);
  }

  lemma AroundDot(s: string, n: nat)
    requires n < |s| && s[n] == '.'
    ensures s == s[..n] + ("." + s[n + 1..])
  {
    assert s == s[..n] + s[n..];
    assert s[n..] == [s[n]] + s[n + 1..];
  }

  lemma PrefixAroundDot(a: string, rest: string, s: string)
    requires a + ("." + rest) <= s
    ensures a <= s && |a| < |s| && s[|a|] == '.' && rest <= s[|a| + 1..]
  {
    assert (a + ("." + rest))[|a|] == '.';
    assert forall i :: 0 <= i < |rest| ==> rest[i] == (a + ("." + rest))[|a| + 1 + i];
  }

  /** What the scanner matched: `dots + 1` numbers joined by dots. */
  lemma {:induction false} NumbersFromSound(s: string, dots: nat)
    requires NumbersFrom(s, dots).Some?
    ensures exists parts :: |parts| == dots + 1 && DottedPrefix(s, parts)
  {
    var n := LeadingDigits(s);
    var a := s[..n];
    assert Digits(a);
    if dots == 0 {
      assert Join([a], ".") == a;
      assert DottedPrefix(s, [a]);
    } else {
      var t := s[n + 1..];
      assert NumbersFrom(t, dots - 1).Some?;
      assert exists more :: |more| == dots && DottedPrefix(t, more) by {
        NumbersFromSound(t, dots - 1);
      }
      var more :| |more| == dots && DottedPrefix(t, more);
      assert DottedPrefix(s, [a] + more) by {
        AroundDot(s, n);
        DottedCons(s, a, t, more);
      }
      assert |[a] + more| == dots + 1;
    }
  }

  /** Numbers joined by dots at the start of `s` are matched. */
  lemma {:induction false} NumbersFromComplete(s: string, parts: seq<string>)
    requires DottedPrefix(s, parts)
    ensures NumbersFrom(s, |parts| - 1).Some?
  {
    var a := parts[0];
    assert Digits(a);
    if |parts| == 1 {
      assert Join(parts, ".") == a;
      assert IsDigit(s[0]) by {
        assert s[0] == a[0];
      }
      assert LeadingDigits(s) > 0;
    } else {
      var rest := Join(parts[1..], ".");
      assert |a| < |s| && s[|a|] == '.' && rest <= s[|a| + 1..] by {
        JoinDot(parts);
        PrefixAroundDot(a, rest, s);
      }
      var t := s[|a| + 1..];
      assert NumbersFrom(s, |parts| - 1) == NumbersFrom(t, |parts| - 2) by {
        LeadingDigitsOf(s, a);
      }
      assert DottedPrefix(t, parts[1..]);
      assert NumbersFrom(t, |parts| - 2).Some? by {
        NumbersFromComplete(t, parts[1..]);
      }
    }
  }

  /** The version check accepts exactly the texts that start with three
      dotted numbers. */
  lemma HasVersionPrefixIff(s: string)
    ensures HasVersionPrefix(s) <==> exists parts :: |parts| == 3 && DottedPrefix(s, parts)
  {
    if HasVersionPrefix(s) {
      NumbersFromSound(s, 2);
    }
    if exists parts :: |parts| == 3 && DottedPrefix(s, parts) {
      var parts :| |parts| == 3 && DottedPrefix(s, parts);
      NumbersFromComplete(s, parts);
    }
  }

  /** The check is a prefix match: a suffix after the third number is
      accepted. */
  lemma SuffixAccepted()
    ensures HasVersionPrefix("1.2.3-beta")
  {
    var s := "1.2.3-beta";
    var parts := ["1", "2", "3"];
    assert Join(parts, ".") == "1.2.3";
    assert s[..5] == "1.2.3";
    NumbersFromComplete(s, parts);
  }

  /** Two numbers are not enough. */
  lemma TwoNumbersRejected()
    ensures !HasVersionPrefix("1.2")
  {
    var s := "1.2";
    assert LeadingDigits(s) == 1 by {
      LeadingDigitsOf(s, "1");
    }
    assert s[2..] == "2";
    assert LeadingDigits("2") == 1;
  }

  // ---------------------------------------------------------------------
  // The Cargo.toml rewrite `/^version\s*=\s*".*"/m`
  // ---------------------------------------------------------------------

  /** The line terminators of ECMAScript, which `^` in multiline mode
      follows and `.` does not match. */
  predicate IsLineTerminator(c: char) {
    c == '\n' || c == '\r' || c == '\U{2028}' || c == '\U{2029}'
  }

  predicate LineStart(s: string, k: nat)
    requires k <= |s|
  {
    k == 0 || IsLineTerminator(s[k - 1])
  }

  /** `\s*`: the position after the whitespace run from `i`. */
  function SkipSpaces(s: string, i: nat): (j: nat)
    requires i <= |s|
    ensures i <= j <= |s|
    ensures j < |s| ==> !IsJsSpace(s[j])
    decreases |s| - i
  {
    if i < |s| && IsJsSpace(s[i]) then SkipSpaces(s, i + 1) else i
  }

  /** The end of the line holding position `i`. */
  function LineEnd(s: string, i: nat): (j: nat)
    requires i <= |s|
    ensures i <= j <= |s|
    decreases |s| - i
  {
    if i < |s| && !IsLineTerminator(s[i]) then LineEnd(s, i + 1) else i
  }

  /** The line end is the first line terminator from `i`. */
  lemma {:induction false} LineEndFirst(s: string, i: nat)
    requires i <= |s|
    ensures forall p :: i <= p < LineEnd(s, i) ==> !IsLineTerminator(s[p])
    ensures LineEnd(s, i) < |s| ==> IsLineTerminator(s[LineEnd(s, i)])
    decreases |s| - i
  {
    if i < |s| && !IsLineTerminator(s[i]) {
      LineEndFirst(s, i + 1);
    }
  }

  /** The last quote in `s[i..j]`. */
  function LastQuote(s: string, i: nat, j: nat): (r: Option<nat>)
    requires i <= j <= |s|
    ensures r.Some? ==> i <= r.value < j && s[r.value] == '"'
    decreases j
  {
    if j == i then None
    else if s[j - 1] == '"' then Some(j - 1)
    else LastQuote(s, i, j - 1)
  }

  /** No quote follows the last one, and none is found only when there
      is none. */
  lemma {:induction false} LastQuoteLast(s: string, i: nat, j: nat)
    requires i <= j <= |s|
    ensures LastQuote(s, i, j).Some? ==> forall p :: LastQuote(s, i, j).value < p < j ==> s[p] != '"'
    ensures LastQuote(s, i, j).None? ==> forall p :: i <= p < j ==> s[p] != '"'
    decreases j
  {
    if j > i && s[j - 1] != '"' {
      LastQuoteLast(s, i, j - 1);
    }
  }

  /** The end of the match of the Cargo pattern that starts at `k`, if
      there is one: `\s*` takes all the whitespace (the next character
      must be `=` or `"`, which are not whitespace) and `.*"` runs to the
      last quote of the line. */
  function MatchAt(s: string, k: nat): Option<nat>
    requires k <= |s|
  {
    if !LineStart(s, k) || !At(s, "version", k) then None
    else AssignmentEnd(s, k + 7)
  }

  /** The rest of the pattern after `version`, from `i`: `\s*=\s*".*"`. */
  function AssignmentEnd(s: string, i: nat): Option<nat>
    requires i <= |s|
  {
    var p1 := SkipSpaces(s, i);
    if p1 == |s| || s[p1] != '=' then None
    else
      var p2 := SkipSpaces(s, p1 + 1);
      if p2 == |s| || s[p2] != '"' then None
      else
        var end := LineEnd(s, p2 + 1);
        match LastQuote(s, p2 + 1, end)
        case None => None
        case Some(q) => Some(q + 1)
  }

  /** A match starts a line with `version` and ends at the last quote of
      the line it ends on. */
  lemma MatchShape(s: string, k: nat)
    requires k <= |s| && MatchAt(s, k).Some?
    ensures var e := MatchAt(s, k).value;
      && k + 9 < e <= |s| && s[e - 1] == '"'
      && LineStart(s, k) && At(s, "version", k)
      && forall p :: e <= p < LineEnd(s, e) ==> s[p] != '"'
  {
    AssignmentShape(s, k + 7);
  }

  /** The assignment ends at the last quote of its line, at least two
      characters on. */
  lemma AssignmentShape(s: string, i: nat)
    requires i <= |s| && AssignmentEnd(s, i).Some?
    ensures var e := AssignmentEnd(s, i).value;
      && i + 2 < e <= |s| && s[e - 1] == '"'
      && forall p :: e <= p < LineEnd(s, e) ==> s[p] != '"'
  {
    var p1 := SkipSpaces(s, i);
    var p2 := SkipSpaces(s, p1 + 1);
    var end := LineEnd(s, p2 + 1);
    var q := LastQuote(s, p2 + 1, end).value;
    assert forall p :: q < p < end ==> s[p] != '"' by {
      LastQuoteLast(s, p2 + 1, end);
    }
    assert LineEnd(s, q + 1) == end by {
      LineEndFrom(s, p2 + 1, q + 1);
    }
  }

  /** The line end seen from a later position on the same line. */
  lemma {:induction false} LineEndFrom(s: string, i: nat, j: nat)
    requires i <= |s| && i <= j <= LineEnd(s, i)
    ensures LineEnd(s, j) == LineEnd(s, i)
    decreases j - i
  {
    if i < j {
      LineEndFrom(s, i + 1, j);
    }
  }

  /** The leftmost match at or after `k`. */
  function FirstMatch(s: string, k: nat): (r: Option<(nat, nat)>)
    requires k <= |s|
    ensures r.Some? ==> k <= r.value.0 <= |s| && MatchAt(s, r.value.0) == Some(r.value.1)
    ensures r.Some? ==> forall j :: k <= j < r.value.0 ==> MatchAt(s, j).None?
    ensures r.None? ==> forall j :: k <= j <= |s| ==> MatchAt(s, j).None?
    decreases |s| - k
  {
    var m := MatchAt(s, k);
    if m.Some? then Some((k, m.value))
    else if k == |s| then None
    else FirstMatch(s, k + 1)
  }

  /** `String.prototype.replace`'s substitution for a pattern without
      capture groups: `$$` is a dollar sign, `$&` the match, `` $` `` the
      text before it, `$'` the text after it; any other `$` stands for
      itself. */
  function Expand(r: string, matched: string, before: string, after: string): string {
    if r == [] then []
    else if r[0] == '$' && |r| > 1 then
      if r[1] == '$' then "$" + Expand(r[2..], matched, before, after)
      else if r[1] == '&' then matched + Expand(r[2..], matched, before, after)
      else if r[1] == '`' then before + Expand(r[2..], matched, before, after)
      else if r[1] == '\'' then after + Expand(r[2..], matched, before, after)
      else "$" + Expand(r[1..], matched, before, after)
    else [r[0]] + Expand(r[1..], matched, before, after)
  }

  /** A replacement without a dollar sign is inserted as it is. */
  lemma {:induction false} ExpandLiteral(r: string, matched: string, before: string, after: string)
    requires '$' !in r
    ensures Expand(r, matched, before, after) == r
  {
    if r != [] {
      assert '$' !in r[1..] by {
        assert forall c :: c in r[1..] ==> c in r;
      }
      ExpandLiteral(r[1..], matched, before, after);
    }
  }

  /** The text the script puts in place of the line. */
  function VersionLine(v: string): string {
    "version = \"" + v + "\""
  }

  /** `cargoContent.replace(/^version\s*=\s*".*"/m, ...)`. */
  function RewriteCargo(s: string, v: string): (r: string)
  {
    match FirstMatch(s, 0)
    case None => s
    case Some((k, e)) => s[..k] + Expand(VersionLine(v), s[k..e], s[..k], s[e..]) + s[e..]
  }

  /** With no `version = "…"` line the content is unchanged. */
  lemma RewriteWithoutMatch(s: string, v: string)
    requires forall j :: 0 <= j <= |s| ==> MatchAt(s, j).None?
    ensures RewriteCargo(s, v) == s
  {
  }

  /** Only the first matching line is rewritten: the text before it and
      after its closing quote is kept, and it becomes `version = "<v>"`. */
  lemma RewriteFirstMatch(s: string, v: string, k: nat, e: nat)
    requires k <= |s| && MatchAt(s, k) == Some(e)
    requires forall j :: 0 <= j < k ==> MatchAt(s, j).None?
    requires '$' !in v
    ensures RewriteCargo(s, v) == s[..k] + VersionLine(v) + s[e..]
  {
    var m := FirstMatch(s, 0);
    assert m == Some((k, e));
    assert '$' !in VersionLine(v) by {
      assert forall c :: c in VersionLine(v) ==> c in v || c in "version = \"";
    }
    ExpandLiteral(VersionLine(v), s[k..e], s[..k], s[e..]);
  }

  // ---------------------------------------------------------------------
  // runSync
  // ---------------------------------------------------------------------

  /** The three files the script touches; `None` is a missing file. */
  datatype Files = Files(packageJson: Option<Doc>, tauriConfig: Option<Doc>, cargoToml: Option<string>)

  /** `doc.version = v` on a file that exists; `None` when the script
      throws (malformed JSON, or `null` at the top). */
  function SetVersion(f: Option<Doc>, v: string): (r: Option<Option<Doc>>)
    ensures f.None? ==> r == Some(None)
  {
    match f
    case None => Some(None)
    case Some(Malformed) => None
    case Some(Parsed(j)) =>
      match Put(j, "version", Str(v))
      case None => None
      case Some(j') => Some(Some(Parsed(j')))
  }

  /** The files after `runSync(v)` and whether it stopped at an error,
      which the script reports and swallows. */
  function Synced(f: Files, v: string): (Files, bool)
  {
    match SetVersion(f.packageJson, v)
    case None => (f, true)
    case Some(pkg) =>
      match SetVersion(f.tauriConfig, v)
      case None => (f.(packageJson := pkg), true)
      case Some(tauri) =>
        var cargo := if f.cargoToml.Some? then Some(RewriteCargo(f.cargoToml.value, v)) else None;
        (Files(pkg, tauri, cargo), false)
  }

  /** A missing file is never created. */
  lemma SyncCreatesNothing(f: Files, v: string)
    ensures f.packageJson.None? ==> Synced(f, v).0.packageJson.None?
    ensures f.tauriConfig.None? ==> Synced(f, v).0.tauriConfig.None?
    ensures f.cargoToml.None? ==> Synced(f, v).0.cargoToml.None?
  {
  }

  /** When both JSON files hold objects, each gets `version` set to the
      argument with its other members kept, Cargo.toml gets its first
      version line rewritten, and nothing fails. */
  lemma SyncWritesVersion(f: Files, v: string, key: string)
    requires f.packageJson.Some? && f.packageJson.value.Parsed? && f.packageJson.value.value.Obj?
    requires f.tauriConfig.Some? && f.tauriConfig.value.Parsed? && f.tauriConfig.value.value.Obj?
    ensures var (g, failed) := Synced(f, v);
      && !failed
      && g.packageJson.Some? && g.packageJson.value.Parsed?
      && Get(g.packageJson.value.value, "version") == Some(Str(v))
      && (key != "version" ==> Get(g.packageJson.value.value, key) == Get(f.packageJson.value.value, key))
      && g.tauriConfig.Some? && g.tauriConfig.value.Parsed?
      && Get(g.tauriConfig.value.value, "version") == Some(Str(v))
      && (key != "version" ==> Get(g.tauriConfig.value.value, key) == Get(f.tauriConfig.value.value, key))
      && (f.cargoToml.Some? ==> g.cargoToml == Some(RewriteCargo(f.cargoToml.value, v)))
  {
    var p := f.packageJson.value.value;
    var t := f.tauriConfig.value.value;
    PutThenGet(p, "version", Str(v));
    PutThenGet(t, "version", Str(v));
    if key != "version" {
      PutKeepsOthers(p, "version", Str(v), key);
      PutKeepsOthers(t, "version", Str(v), key);
    }
  }

  /** A package.json that does not parse stops the run before any file
      is written. */
  lemma SyncStopsAtMalformedPackage(f: Files, v: string)
    requires f.packageJson == Some(Malformed)
    ensures Synced(f, v) == (f, true)
  {
  }

  /** A Tauri config that does not parse stops the run after package.json
      and leaves it and Cargo.toml as they were. */
  lemma SyncStopsAtMalformedConfig(f: Files, v: string)
    requires f.packageJson.None? || (f.packageJson.value.Parsed? && !f.packageJson.value.value.Null?)
    requires f.tauriConfig == Some(Malformed)
    ensures Synced(f, v).1
    ensures Synced(f, v).0.tauriConfig == f.tauriConfig && Synced(f, v).0.cargoToml == f.cargoToml
  {
  }

  /** The project directory the script works in. */
  class Workspace {
    var packageJson: Option<Doc>
    var tauriConfig: Option<Doc>
    var cargoToml: Option<string>

    function Contents(): Files
      reads this
    {
      Files(packageJson, tauriConfig, cargoToml)
    }

    constructor(f: Files)
      ensures Contents() == f
    {
      packageJson, tauriConfig, cargoToml := f.packageJson, f.tauriConfig, f.cargoToml;
    }

    /** `runSync`: each existing file in turn, stopping at the first
        exception. */
    method RunSync(v: string) returns (failed: bool)
      modifies this
      ensures (Contents(), failed) == Synced(old(Contents()), v)
    {
      failed := false;
      if packageJson.Some? {
        match packageJson.value
        case Malformed =>
          return true;
        case Parsed(j) =>
          var j' := Put(j, "version", Str(v));
          if j'.None? {
            return true;
          }
          packageJson := Some(Parsed(j'.value));
      }
      if tauriConfig.Some? {
        match tauriConfig.value
        case Malformed =>
          return true;
        case Parsed(j) =>
          var j' := Put(j, "version", Str(v));
          if j'.None? {
            return true;
          }
          tauriConfig := Some(Parsed(j'.value));
      }
      if cargoToml.Some? {
        cargoToml := Some(RewriteCargo(cargoToml.value, v));
      }
    }

    /** The script: a missing or empty argument, or one failing the
        version check, exits with status 1 before any file is touched;
        otherwise the files are synced and the status is 0. */
    method Run(arg: Option<string>) returns (status: int)
      modifies this
      ensures status == 1 <==> arg.None? || arg.value == [] || !HasVersionPrefix(arg.value)
      ensures status == 1 ==> Contents() == old(Contents())
      ensures status != 1 ==> status == 0 && Contents() == Synced(old(Contents()), arg.value).0
    {
      if arg.None? || arg.value == [] {
        return 1;
      }
      if !HasVersionPrefix(arg.value) {
        return 1;
      }
      var _ := RunSync(arg.value);
      status := 0;
    }
  }
}
