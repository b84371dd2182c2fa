/** The Tauri commands of the note app's Rust back end: notes are
    `<data>/<path>.md` files, pasted images live under `<data>/assets/<note
    path>/`, deleted notes and folders go to `<data>/.trash/` under a
    time-stamped name, and the front end receives the note tree as nested
    `FileNode`s. */
module NoteStore {
  import opened Common
  import opened Encoding
  import opened Sorting
  import opened FileSystem

  // ---------------------------------------------------------------------
  // Path names as `std::path` takes them apart
  // ---------------------------------------------------------------------

  /** `Path::file_name`: the last component. */
  function FileName(p: string): (r: string)
    ensures '/' !in r
    ensures |r| <= |p| && r == p[|p| - |r|..]
  {
    match FindLastChar(p, '/')
    case None => p
    case Some(i) => p[i + 1..]
  }

  lemma FileNameOfJoin(dir: string, name: string)
    requires '/' !in name
    ensures FileName(PathJoin(dir, name)) == name
  {
    var p := PathJoin(dir, name);
    assert p[|dir|] == '/';
    assert p[|dir| + 1..] == name;
  }

  /** `Path::file_stem` and `Path::extension` of a file name: split at the
      last dot, unless that dot is the first character or the name is
      `..`. */
  function SplitExtension(name: string): (r: (string, Option<string>))
    ensures r.1.None? ==> r.0 == name
    ensures r.1.Some? ==> name == r.0 + "." + r.1.value && r.0 != [] && '.' !in r.1.value
  {
    if name == ".." then (name, None)
    else match FindLastChar(name, '.')
      case None => (name, None)
      case Some(i) =>
        if i == 0 then (name, None)
        else
          assert name == name[..i] + "." + name[i + 1..];
          (name[..i], Some(name[i + 1..]))
  }

  /** A note file `<c>.md` has stem `c` and extension `md`. */
  lemma SplitNoteName(c: string)
    requires c != []
    ensures SplitExtension(c + ".md") == (c, Some("md"))
  {
    var name := c + ".md";
    assert name == c + ['.'] + "md";
    FindLastCharAt(c, '.', "md");
    assert name[..|c|] == c;
  }

  /** A name without dots is its own stem. */
  lemma SplitDotless(n: string)
    requires '.' !in n
    ensures SplitExtension(n) == (n, None)
  {
  }

  // ---------------------------------------------------------------------
  // Trash names
  // ---------------------------------------------------------------------

  /** The name `delete_item` gives an entry in the trash:
      `<stem>_<seconds>`, followed by `.<extension>` for a note. `None`
      where the note path has no extension and `unwrap` panics. */
  function TrashName(src: string, isDir: bool, now: nat): (r: Option<string>)
  {
    var (stem, ext) := SplitExtension(FileName(src));
    if isDir then Some(stem + "_" + NatToString(now))
    else match ext
      case None => None
      case Some(e) => Some(stem + "_" + NatToString(now) + "." + e)
  }

  lemma TrashNameOfFolder(src: string, now: nat)
    ensures TrashName(src, true, now) == Some(SplitExtension(FileName(src)).0 + "_" + NatToString(now))
  {
  }

  lemma TrashNameOfNote(src: string, now: nat)
    requires SplitExtension(FileName(src)).1.Some?
    ensures var (stem, ext) := SplitExtension(FileName(src));
            TrashName(src, false, now) == Some(stem + "_" + NatToString(now) + "." + ext.value)
  {
  }

  /** The name `restore_trash_item` gives back: the text before the last
      `_`, followed by everything from the first `.` after it; a name
      without `_` is kept. */
  function RestoreName(fileName: string): (r: string)
  {
    match FindLastChar(fileName, '_')
    case None => fileName
    case Some(idx) =>
      fileName[..idx] + RestoreExt(fileName[idx..])
  }

  lemma NatToStringPlain(n: nat)
    ensures '_' !in NatToString(n) && '.' !in NatToString(n)
  {
    NatToStringDigits(n);
    var s := NatToString(n);
    assert forall i :: 0 <= i < |s| ==> s[i] != '_' && s[i] != '.';
  }

  /** Restoring undoes the time stamp: `<stem>_<seconds><ext>` comes back
      as `<stem><ext>` whenever the extension is empty or a dot followed by
      a text without `_`. */
  lemma RestoreTimeStamped(stem: string, now: nat, ext: string)
    requires ext == [] || (ext[0] == '.' && '_' !in ext)
    ensures RestoreName(stem + "_" + NatToString(now) + ext) == stem + ext
  {
    NatToStringPlain(now);
    RestoreStamp(stem, NatToString(now), ext);
  }

  /** `RestoreName` splits at the last `_` when the text after it has none. */
  lemma RestoreNameAt(stem: string, tail: string)
    requires '_' !in tail
    ensures RestoreName(stem + "_" + tail) == stem + RestoreExt(['_'] + tail)
  {
    var name := stem + "_" + tail;
    assert name == stem + ['_'] + tail;
    FindLastCharAt(stem, '_', tail);
    assert name[..|stem|] == stem && name[|stem|..] == ['_'] + tail;
  }

  /** The extension part `RestoreName` keeps from the text after the `_`. */
  function RestoreExt(rest: string): string {
    match FindChar(rest, '.') case None => "" case Some(j) => rest[j..]
  }

  lemma RestoreExtOf(digits: string, ext: string)
    requires '.' !in digits
    requires ext == [] || ext[0] == '.'
    ensures RestoreExt(['_'] + digits + ext) == ext
  {
    var rest := ['_'] + digits + ext;
    if ext == [] {
      assert rest == ['_'] + digits;
      assert FindChar(rest, '.') == None;
    } else {
      assert rest == (['_'] + digits) + ['.'] + ext[1..];
      FindCharAt(['_'] + digits, '.', ext[1..]);
      assert rest[|digits| + 1..] == ext;
    }
  }

  lemma RestoreStamp(stem: string, digits: string, ext: string)
    requires '_' !in digits && '.' !in digits
    requires ext == [] || (ext[0] == '.' && '_' !in ext)
    ensures RestoreName(stem + "_" + digits + ext) == stem + ext
  {
    assert stem + "_" + digits + ext == stem + "_" + (digits + ext);
    assert ['_'] + (digits + ext) == ['_'] + digits + ext;
    RestoreNameAt(stem, digits + ext);
    RestoreExtOf(digits, ext);
  }

  /** A note `<dir>/<c>.md` goes to the trash as `<c>_<seconds>.md` and is
      restored as `<c>.md`, at the top of the data directory whatever
      folder it came from. */
  lemma NoteTrashRoundTrip(dir: string, c: string, now: nat)
    requires c != [] && '/' !in c
    ensures TrashName(PathJoin(dir, c + ".md"), false, now) == Some(c + "_" + NatToString(now) + ".md")
    ensures RestoreName(c + "_" + NatToString(now) + ".md") == c + ".md"
  {
    var src := PathJoin(dir, c + ".md");
    var stamp := c + "_" + NatToString(now);
    assert FileName(src) == c + ".md" by {
      NoSlashNote(c);
      FileNameOfJoin(dir, c + ".md");
    }
    assert SplitExtension(FileName(src)) == (c, Some("md")) by {
      SplitNoteName(c);
    }
    assert TrashName(src, false, now) == Some(stamp + "." + "md") by {
      TrashNameOfNote(src, now);
    }
    assert stamp + "." + "md" == stamp + ".md";
    assert RestoreName(stamp + ".md") == c + ".md" by {
      MdExtension();
      RestoreTimeStamped(c, now, ".md");
    }
  }

  /** A note path without a slash gives a file name without one. */
  lemma NoSlashNote(c: string)
    requires '/' !in c
    ensures '/' !in c + ".md"
  {
    forall i | 0 <= i < |c + ".md"| ensures (c + ".md")[i] != '/' {
      if i < |c| {
        assert (c + ".md")[i] == c[i];
      }
    }
  }

  /** The note extension is one an archived name can carry. */
  lemma MdExtension()
    ensures ".md"[0] == '.' && '_' !in ".md"
  {
  }

  /** A folder whose name has no dot is restored under its own name. */
  lemma FolderTrashRoundTrip(dir: string, n: string, now: nat)
    requires '/' !in n && '.' !in n
    ensures TrashName(PathJoin(dir, n), true, now) == Some(n + "_" + NatToString(now))
    ensures RestoreName(n + "_" + NatToString(now)) == n
  {
    FileNameOfJoin(dir, n);
    SplitDotless(n);
    TrashNameOfFolder(PathJoin(dir, n), now);
    RestoreTimeStamped(n, now, "");
    assert n + "_" + NatToString(now) + "" == n + "_" + NatToString(now);
    assert n + "" == n;
  }

  /** A folder whose name has a dot loses the part from its last dot on:
      the folder `v1.2` goes to the trash as `v1_<seconds>` and comes back
      as `v1`. */
  lemma DottedFolderLosesSuffix(dir: string, now: nat)
    ensures TrashName(PathJoin(dir, "v1.2"), true, now) == Some("v1_" + NatToString(now))
    ensures RestoreName("v1_" + NatToString(now)) == "v1"
  {
    DottedFolderTrashName(dir, now);
    RestoreTimeStamped("v1", now, "");
    StampGlue(NatToString(now));
  }

  lemma StampGlue(x: string)
    ensures "v1" + "_" + x == "v1_" + x && "v1" + "_" + x + "" == "v1_" + x
  {
    assert "v1" + "_" == "v1_";
  }

  lemma DottedFolderTrashName(dir: string, now: nat)
    ensures TrashName(PathJoin(dir, "v1.2"), true, now) == Some("v1_" + NatToString(now))
  {
    FileNameOfJoin(dir, "v1.2");
    DottedName();
    TrashNameOfFolder(PathJoin(dir, "v1.2"), now);
    StampGlue(NatToString(now));
  }

  lemma DottedName()
    ensures SplitExtension("v1.2") == ("v1", Some("2"))
  {
    var name := "v1.2";
    assert name == "v1" + ['.'] + "2";
    FindLastCharAt("v1", '.', "2");
    assert name[..2] == "v1" && name[3..] == "2";
  }

  // ---------------------------------------------------------------------
  // Asset URLs
  // ---------------------------------------------------------------------

  /** The URL prefixes `parse_asset_url` recognises, in the order it tries
      them. */
  const AssetPrefixes: seq<string> :=
    ["http://asset.localhost/", "https://asset.localhost/", "asset://localhost/", "asset://"]

  /** `AssetPrefixes[i]` is the first prefix `url` starts with. */
  predicate FirstPrefix(url: string, i: nat) {
    && i < |AssetPrefixes|
    && At(url, AssetPrefixes[i], 0)
    && forall j :: 0 <= j < i ==> !At(url, AssetPrefixes[j], 0)
  }

  function StripFrom(url: string, i: nat): (r: string)
    requires i <= |AssetPrefixes|
    decreases |AssetPrefixes| - i
    ensures forall j :: i <= j && FirstPrefix(url, j) ==> r == url[|AssetPrefixes[j]|..]
    ensures (forall j :: i <= j < |AssetPrefixes| ==> !At(url, AssetPrefixes[j], 0)) ==> r == url
  {
    if i == |AssetPrefixes| then url
    else if At(url, AssetPrefixes[i], 0) then url[|AssetPrefixes[i]|..]
    else StripFrom(url, i + 1)
  }

  /** The path part of an asset URL: what follows the first prefix it
      starts with (one prefix at most), or the whole URL. */
  function StripAssetPrefix(url: string): (r: string)
    ensures forall i: nat :: FirstPrefix(url, i) ==> r == url[|AssetPrefixes[i]|..]
    ensures (forall i :: 0 <= i < |AssetPrefixes| ==> !At(url, AssetPrefixes[i], 0)) ==> r == url
  {
    StripFrom(url, 0)
  }

  /** The loop of `parse_asset_url`: try each prefix and stop at the first
      that matches. */
  method StripAssetPrefixLoop(url: string) returns (path: string)
    ensures path == StripAssetPrefix(url)
  {
    path := url;
    var i := 0;
    while i < |AssetPrefixes|
      invariant 0 <= i <= |AssetPrefixes|
      invariant path == url
      invariant StripFrom(url, i) == StripAssetPrefix(url)
    {
      var prefix := AssetPrefixes[i];
      if At(url, prefix, 0) {
        path := url[|prefix|..];
        break;
      }
      i := i + 1;
    }
  }

  /** `parse_asset_url`: strip the prefix, percent-decode, and reject bytes
      that are not UTF-8. */
  function AssetPath(url: string): (r: Result<string, Failure>)
    ensures r.Err? ==> r.error == InvalidUtf8
  {
    match PercentDecodeUtf8(StripAssetPrefix(url))
    case None => Err(InvalidUtf8)
    case Some(p) => Ok(p)
  }

  method ParseAssetUrl(url: string) returns (r: Result<string, Failure>)
    ensures r == AssetPath(url)
  {
    var pathStr := StripAssetPrefixLoop(url);
    var decoded := PercentDecodeUtf8(pathStr);
    if decoded.None? {
      return Err(InvalidUtf8);
    }
    r := Ok(decoded.value);
  }

  /** The URL the front end's `convertFileSrc` builds for a local path:
      the percent-encoded path behind `http://asset.localhost/` on Windows
      and behind `asset://localhost/` elsewhere. */
  function ConvertFileSrc(path: string, windows: bool): (url: string)
  {
    (if windows then AssetPrefixes[0] else AssetPrefixes[2]) + EncodeUriComponent(path)
  }

  /** `parse_asset_url` recovers the path from the URL of an image. */
  lemma AssetPathOfConverted(path: string, windows: bool)
    ensures AssetPath(ConvertFileSrc(path, windows)) == Ok(path)
  {
    var enc := EncodeUriComponent(path);
    var url := ConvertFileSrc(path, windows);
    var i := if windows then 0 else 2;
    var prefix := AssetPrefixes[i];
    assert url == prefix + enc;
    assert url[..|prefix|] == prefix;
    assert At(url, prefix, 0);
    if !windows {
      assert url[0] != 'h';
      NotAt(url, AssetPrefixes[0], 0);
      NotAt(url, AssetPrefixes[1], 0);
    }
    assert FirstPrefix(url, i);
    assert url[|prefix|..] == enc;
    PercentDecodeUtf8OfEncoded(path);
  }

  /** Exactly one prefix is removed: `asset://asset://x` names the path
      `asset://x`. */
  lemma AssetPathStripsOnce()
    ensures AssetPath("asset://asset://x") == Ok("asset://x")
  {
    var url := "asset://asset://x";
    assert url[0] != 'h';
    NotAt(url, AssetPrefixes[0], 0);
    NotAt(url, AssetPrefixes[1], 0);
    assert url[8] != 'l' && AssetPrefixes[2][8] == 'l';
    assert !At(url, AssetPrefixes[2], 0);
    assert url[..8] == AssetPrefixes[3];
    assert FirstPrefix(url, 3);
    assert url[8..] == "asset://x";
    PercentDecodeUtf8Plain("asset://x");
  }

  /** An escape that is not UTF-8 is an error. */
  lemma AssetPathRejectsInvalidUtf8()
    ensures AssetPath("asset://localhost/%FF") == Err(InvalidUtf8)
  {
    var url := "asset://localhost/%FF";
    assert url[0] != 'h';
    NotAt(url, AssetPrefixes[0], 0);
    NotAt(url, AssetPrefixes[1], 0);
    assert url[..18] == AssetPrefixes[2];
    assert FirstPrefix(url, 2);
    assert url[18..] == "%FF";
    PercentDecodeUtf8RejectsFF();
  }

  // ---------------------------------------------------------------------
  // The note tree
  // ---------------------------------------------------------------------

  datatype FileNode = FileNode(name: string, path: string, isDir: bool, children: seq<FileNode>)

  /** `rel_path` joined under the data directory (`base.join(rel)`). */
  function RelDir(base: string, rel: string): string {
    if rel == [] then base else PathJoin(base, rel)
  }

  /** `PathBuf::push` onto a relative path, which may be empty. */
  function JoinRel(rel: string, name: string): string {
    if rel == [] then name else PathJoin(rel, name)
  }

  lemma RelDirJoin(base: string, rel: string, name: string)
    requires name != []
    ensures RelDir(base, JoinRel(rel, name)) == PathJoin(RelDir(base, rel), name)
  {
    if rel != [] {
      assert base + "/" + (rel + "/" + name) == (base + "/" + rel) + "/" + name;
    }
  }

  /** `.replace("\\", "/")`. */
  function Slashed(s: string): (r: string)
    ensures |r| == |s|
    ensures forall i :: 0 <= i < |s| ==> r[i] == (if s[i] == '\\' then '/' else s[i])
  {
    if s == [] then [] else [if s[0] == '\\' then '/' else s[0]] + Slashed(s[1..])
  }

  predicate EndsWith(s: string, suffix: string) {
    |s| >= |suffix| && s[|s| - |suffix|..] == suffix
  }

  /** `k` is an entry directly inside `dir`. */
  predicate IsChildOf(k: string, dir: string) {
    |k| > |dir| + 1 && Below(k, dir) && '/' !in k[|dir| + 1..]
  }

  /** The name of the child `k` of `dir` (`file_name`). */
  function ChildName(k: string, dir: string): (name: string)
    requires IsChildOf(k, dir)
    ensures name != [] && '/' !in name && k == PathJoin(dir, name)
  {
    assert k == k[..|dir|] + [k[|dir|]] + k[|dir| + 1..];
    k[|dir| + 1..]
  }

  /** The entries `read_dir` reports for `dir`. */
  function ChildKeys(d: Disk, dir: string): set<string> {
    set k | k in d && IsChildOf(k, dir)
  }

  /** Entries `scan_dir` leaves out: `assets`, `.trash` and hidden names. */
  predicate Skipped(name: string) {
    name == "assets" || name == ".trash" || (name != [] && name[0] == '.')
  }

  /** A child that appears in the tree: a visible folder or a visible
      `.md` file. */
  predicate Shown(d: Disk, dir: string, k: string)
    requires k in d && IsChildOf(k, dir)
  {
    var name := ChildName(k, dir);
    !Skipped(name) && (d[k].Dir? || EndsWith(name, ".md"))
  }

  /** The entries shown for `dir`; none when it cannot be read. */
  function ListedKeys(d: Disk, dir: string): set<string> {
    if IsDir(d, dir) then set k | k in d && IsChildOf(k, dir) && Shown(d, dir, k) else {}
  }

  /** The node `scan_dir` makes for a shown child `k`, apart from the
      children of a folder: a folder keeps its name and relative path; a
      note shows its stem and the relative path without the extension;
      separators become `/`. */
  predicate Describes(d: Disk, dir: string, rel: string, k: string, nd: FileNode)
    requires k in d && IsChildOf(k, dir)
  {
    var isDir := d[k].Dir?;
    var name := ChildName(k, dir);
    var shown := if isDir then name else SplitExtension(name).0;
    && nd.isDir == isDir
    && nd.name == shown
    && nd.path == Slashed(JoinRel(rel, shown))
    && (!isDir ==> nd.children == [])
  }

  /** `scan_dir`'s order: folders before notes, then names ascending. */
  predicate NodeLeq(a: FileNode, b: FileNode) {
    (a.isDir && !b.isDir) || (a.isDir == b.isDir && LexLeq(a.name, b.name))
  }

  lemma NodeLeqTotalPreorder()
    ensures TotalPreorder(NodeLeq)
  {
    forall a: FileNode, b: FileNode ensures NodeLeq(a, b) || NodeLeq(b, a) {
      LexTotal(a.name, b.name);
    }
    forall a: FileNode, b: FileNode, c: FileNode | NodeLeq(a, b) && NodeLeq(b, c)
      ensures NodeLeq(a, c)
    {
      if a.isDir == b.isDir == c.isDir {
        LexTransitive(a.name, b.name, c.name);
      }
    }
  }

  /** An upper bound on the length of every path on the disk. */
  ghost function KeyBound(keys: set<string>): (r: nat)
    ensures forall k :: k in keys ==> |k| <= r
  {
    if keys == {} then 0
    else
      var k :| k in keys;
      var b := KeyBound(keys - {k});
      if |k| > b then |k| else b
  }

  /** `nd` is the node of some shown entry of `dir`. */
  ghost predicate OfListedKey(d: Disk, dir: string, rel: string, nd: FileNode) {
    exists k :: k in ListedKeys(d, dir) && k in d && IsChildOf(k, dir) && Describes(d, dir, rel, k, nd)
  }

  /** The child `k` of `dir` has a node in `nodes`. */
  ghost predicate HasNode(d: Disk, dir: string, rel: string, nodes: seq<FileNode>, k: string)
    requires k in d && IsChildOf(k, dir)
  {
    exists i :: 0 <= i < |nodes| && Describes(d, dir, rel, k, nodes[i])
  }

  /** Every node describes some shown entry of `dir`. */
  ghost predicate Sound(d: Disk, dir: string, rel: string, nodes: seq<FileNode>) {
    forall i :: 0 <= i < |nodes| ==> OfListedKey(d, dir, rel, nodes[i])
  }

  /** Every shown entry of `dir` among `keys` has a node. */
  ghost predicate Complete(d: Disk, dir: string, rel: string, nodes: seq<FileNode>, keys: set<string>) {
    forall k :: k in ListedKeys(d, dir) && k in keys ==>
      k in d && IsChildOf(k, dir) && HasNode(d, dir, rel, nodes, k)
  }

  /** `nodes` lists the directory `dir`: sorted folders-first by name,
      one node per shown entry and nothing else. */
  ghost predicate ListsEntries(d: Disk, dir: string, rel: string, nodes: seq<FileNode>) {
    && SortedBy(nodes, NodeLeq)
    && |nodes| == |ListedKeys(d, dir)|
    && Sound(d, dir, rel, nodes)
    && Complete(d, dir, rel, nodes, ListedKeys(d, dir))
  }

  /** How far a listing is from the longest path on the disk. */
  ghost function Depth(d: Disk, base: string, rel: string): int {
    KeyBound(d.Keys) - |RelDir(base, rel)|
  }

  /** `nodes` is what `scan_dir(base, rel)` returns: the entries of the
      directory, each folder node carrying the listing of that folder. */
  ghost predicate IsListing(d: Disk, base: string, rel: string, nodes: seq<FileNode>)
    decreases Depth(d, base, rel), 1
  {
    ListsEntries(d, RelDir(base, rel), rel, nodes) && Deep(d, base, rel, nodes)
  }

  /** Each folder node carries the listing of its folder. */
  ghost predicate Deep(d: Disk, base: string, rel: string, nodes: seq<FileNode>)
    decreases Depth(d, base, rel), 0
  {
    forall i :: 0 <= i < |nodes| && nodes[i].isDir && nodes[i].name != [] && PathJoin(RelDir(base, rel), nodes[i].name) in d ==>
      (ListingShrinks(d, base, rel, nodes[i].name);
       IsListing(d, base, JoinRel(rel, nodes[i].name), nodes[i].children))
  }

  /** Listing a sub-folder is a smaller problem. */
  lemma ListingShrinks(d: Disk, base: string, rel: string, name: string)
    requires name != [] && PathJoin(RelDir(base, rel), name) in d
    ensures 0 <= Depth(d, base, JoinRel(rel, name)) < Depth(d, base, rel)
  {
    RelDirJoin(base, rel, name);
  }

  lemma CardInsert<T>(a: set<T>, s: set<T>, x: T)
    requires x in a && x !in s
    ensures |a * (s + {x})| == |a * s| + 1
  {
    assert a * (s + {x}) == a * s + {x};
  }

  lemma CardSkip<T>(a: set<T>, s: set<T>, x: T)
    requires x !in a
    ensures a * (s + {x}) == a * s
  {
  }

  /** Moving `x` from the work list to the done set keeps their union. */
  lemma MoveOne<T>(todo: set<T>, done: set<T>, x: T)
    requires x in todo && todo !! done
    ensures (todo - {x}) !! (done + {x}) && (todo - {x}) + (done + {x}) == todo + done
  {
  }

  lemma SubsetMeet<T>(a: set<T>, b: set<T>)
    requires a <= b
    ensures a * b == a
  {
  }

  /** The loop invariant of `scan_dir`: `raw` holds one node for each
      shown entry among the children `seen` so far, and nothing else. */
  ghost predicate Scanned(d: Disk, base: string, rel: string, raw: seq<FileNode>, seen: set<string>) {
    var dir := RelDir(base, rel);
    && |raw| == |ListedKeys(d, dir) * seen|
    && Sound(d, dir, rel, raw)
    && Complete(d, dir, rel, raw, seen)
    && Deep(d, base, rel, raw)
  }

  lemma SoundAdd(d: Disk, dir: string, rel: string, raw: seq<FileNode>, k: string, node: FileNode)
    requires Sound(d, dir, rel, raw)
    requires k in ListedKeys(d, dir) && k in d && IsChildOf(k, dir) && Describes(d, dir, rel, k, node)
    ensures Sound(d, dir, rel, raw + [node])
  {
    var r := raw + [node];
    forall i | 0 <= i < |r|
      ensures OfListedKey(d, dir, rel, r[i])
    {
      if i < |raw| {
        assert r[i] == raw[i];
      }
    }
  }

  lemma CompleteAdd(d: Disk, dir: string, rel: string, raw: seq<FileNode>, seen: set<string>, k: string, node: FileNode)
    requires Complete(d, dir, rel, raw, seen)
    requires k in d && IsChildOf(k, dir) && Describes(d, dir, rel, k, node)
    ensures Complete(d, dir, rel, raw + [node], seen + {k})
  {
    var r := raw + [node];
    forall j | j in ListedKeys(d, dir) && j in seen + {k}
      ensures j in d && IsChildOf(j, dir) && HasNode(d, dir, rel, r, j)
    {
      if j == k {
        assert r[|raw|] == node;
      } else {
        var i :| 0 <= i < |raw| && Describes(d, dir, rel, j, raw[i]);
        assert r[i] == raw[i];
      }
    }
  }

  lemma CompleteSkip(d: Disk, dir: string, rel: string, raw: seq<FileNode>, seen: set<string>, k: string)
    requires Complete(d, dir, rel, raw, seen)
    requires k !in ListedKeys(d, dir)
    ensures Complete(d, dir, rel, raw, seen + {k})
  {
  }

  lemma DeepAdd(d: Disk, base: string, rel: string, raw: seq<FileNode>, node: FileNode)
    requires Deep(d, base, rel, raw)
    requires node.isDir ==> IsListing(d, base, JoinRel(rel, node.name), node.children)
    ensures Deep(d, base, rel, raw + [node])
  {
    var r := raw + [node];
    forall i | 0 <= i < |r| && r[i].isDir && r[i].name != [] && PathJoin(RelDir(base, rel), r[i].name) in d
      ensures IsListing(d, base, JoinRel(rel, r[i].name), r[i].children)
    {
      if i < |raw| {
        assert r[i] == raw[i];
      }
    }
  }

  lemma ScannedAdd(d: Disk, base: string, rel: string, raw: seq<FileNode>, seen: set<string>, k: string, node: FileNode)
    requires Scanned(d, base, rel, raw, seen)
    requires k in ListedKeys(d, RelDir(base, rel)) && k !in seen
    requires k in d && IsChildOf(k, RelDir(base, rel)) && Describes(d, RelDir(base, rel), rel, k, node)
    requires node.isDir ==> IsListing(d, base, JoinRel(rel, node.name), node.children)
    ensures Scanned(d, base, rel, raw + [node], seen + {k})
  {
    var dir := RelDir(base, rel);
    CardInsert(ListedKeys(d, dir), seen, k);
    SoundAdd(d, dir, rel, raw, k, node);
    CompleteAdd(d, dir, rel, raw, seen, k, node);
    DeepAdd(d, base, rel, raw, node);
  }

  lemma ScannedSkip(d: Disk, base: string, rel: string, raw: seq<FileNode>, seen: set<string>, k: string)
    requires Scanned(d, base, rel, raw, seen)
    requires k !in ListedKeys(d, RelDir(base, rel))
    ensures Scanned(d, base, rel, raw, seen + {k})
  {
    CardSkip(ListedKeys(d, RelDir(base, rel)), seen, k);
    CompleteSkip(d, RelDir(base, rel), rel, raw, seen, k);
  }

  /** Reordering keeps every property stated per node. */
  lemma SoundPermuted(d: Disk, dir: string, rel: string, raw: seq<FileNode>, nodes: seq<FileNode>)
    requires forall nd :: nd in nodes <==> nd in raw
    requires Sound(d, dir, rel, raw)
    ensures Sound(d, dir, rel, nodes)
  {
    forall i | 0 <= i < |nodes|
      ensures OfListedKey(d, dir, rel, nodes[i])
    {
      assert nodes[i] in raw;
      var j :| 0 <= j < |raw| && raw[j] == nodes[i];
    }
  }

  lemma CompletePermuted(d: Disk, dir: string, rel: string, raw: seq<FileNode>, nodes: seq<FileNode>, keys: set<string>)
    requires forall nd :: nd in nodes <==> nd in raw
    requires Complete(d, dir, rel, raw, keys)
    ensures Complete(d, dir, rel, nodes, keys)
  {
    forall k | k in ListedKeys(d, dir) && k in keys
      ensures k in d && IsChildOf(k, dir) && HasNode(d, dir, rel, nodes, k)
    {
      var j :| 0 <= j < |raw| && Describes(d, dir, rel, k, raw[j]);
      assert raw[j] in nodes;
    }
  }

  lemma DeepPermuted(d: Disk, base: string, rel: string, raw: seq<FileNode>, nodes: seq<FileNode>)
    requires forall nd :: nd in nodes <==> nd in raw
    requires Deep(d, base, rel, raw)
    ensures Deep(d, base, rel, nodes)
  {
    forall i | 0 <= i < |nodes| && nodes[i].isDir && nodes[i].name != [] && PathJoin(RelDir(base, rel), nodes[i].name) in d
      ensures IsListing(d, base, JoinRel(rel, nodes[i].name), nodes[i].children)
    {
      assert nodes[i] in raw;
      var j :| 0 <= j < |raw| && raw[j] == nodes[i];
    }
  }

  lemma ListedAreChildren(d: Disk, dir: string)
    ensures ListedKeys(d, dir) <= ChildKeys(d, dir)
  {
  }

  lemma SortedListing(d: Disk, base: string, rel: string, raw: seq<FileNode>)
    requires |raw| == |ListedKeys(d, RelDir(base, rel))|
    requires Sound(d, RelDir(base, rel), rel, raw)
    requires Complete(d, RelDir(base, rel), rel, raw, ListedKeys(d, RelDir(base, rel)))
    requires Deep(d, base, rel, raw)
    ensures IsListing(d, base, rel, SortBy(raw, NodeLeq))
  {
    var nodes := SortBy(raw, NodeLeq);
    NodeLeqTotalPreorder();
    SortBySorted(raw, NodeLeq);
    SortByMembers(raw, NodeLeq);
    SortByPermutation(raw, NodeLeq);
    SoundPermuted(d, RelDir(base, rel), rel, raw, nodes);
    CompletePermuted(d, RelDir(base, rel), rel, raw, nodes, ListedKeys(d, RelDir(base, rel)));
    DeepPermuted(d, base, rel, raw, nodes);
  }

  /** Sorting the finished scan gives the listing. */
  lemma ScannedDone(d: Disk, base: string, rel: string, raw: seq<FileNode>)
    requires IsDir(d, RelDir(base, rel)) ==> Scanned(d, base, rel, raw, ChildKeys(d, RelDir(base, rel)))
    requires !IsDir(d, RelDir(base, rel)) ==> raw == []
    ensures IsListing(d, base, rel, SortBy(raw, NodeLeq))
  {
    var dir := RelDir(base, rel);
    var listed := ListedKeys(d, dir);
    if IsDir(d, dir) {
      ListedAreChildren(d, dir);
      SubsetMeet(listed, ChildKeys(d, dir));
    } else {
      assert listed == {};
    }
    SortedListing(d, base, rel, raw);
  }

  // ---------------------------------------------------------------------
  // The commands, as functions of the disk
  // ---------------------------------------------------------------------

  /** What a command returns, and the disk it leaves behind. */
  datatype Outcome<T> = Outcome(result: Result<T, Failure>, disk: Disk)

  /** `get_data_dir`, `get_assets_root`, `get_trash_dir`: a folder that does
      not exist is created, and a failure to create it is ignored; a path
      that exists, even as a file, is left alone. */
  function EnsureDir(d: Disk, p: string): (r: Disk)
    ensures forall k :: k in d ==> k in r && r[k] == d[k]
    ensures forall k :: k in r ==> k in d || k in Chain(p)
    ensures p in d ==> r == d
    ensures (forall a :: a in Chain(p) ==> !IsFile(d, a)) ==> IsDir(r, p)
  {
    assert p in Chain(p);
    if p in d then d else CreateDirAllIgnored(d, p)
  }

  lemma EnsureDirAddsDirs(d: Disk, p: string)
    ensures forall k :: k in EnsureDir(d, p) && k !in d ==> EnsureDir(d, p)[k] == Dir
  {
    CreateDirAllAddsDirs(d, p);
  }

  function AssetsRoot(dataDir: string): string {
    PathJoin(dataDir, "assets")
  }

  function TrashDir(dataDir: string): string {
    PathJoin(dataDir, ".trash")
  }

  /** The file of the note `path`: `<data>/<path>.md`. */
  function NoteFile(dataDir: string, path: string): string {
    PathJoin(dataDir, path + ".md")
  }

  /** The file of a note or the folder `path`. */
  function ItemPath(dataDir: string, path: string, isDir: bool): string {
    if isDir then PathJoin(dataDir, path) else NoteFile(dataDir, path)
  }

  /** `open_file`: the path handed to the system's opener. */
  function OpenTarget(d: Disk, url: string): (r: Result<string, Failure>)
    ensures AssetPath(url).Err? ==> r == Err(InvalidUtf8)
    ensures AssetPath(url).Ok? ==> (r.Ok? <==> AssetPath(url).value in d)
    ensures AssetPath(url).Ok? && r.Err? ==> r.error == FileMissing
    ensures r.Ok? ==> Ok(r.value) == AssetPath(url)
  {
    match AssetPath(url)
    case Err(e) => Err(e)
    case Ok(p) => if p !in d then Err(FileMissing) else Ok(p)
  }

  /** `delete_asset`: removes the file an asset URL names, and nothing when
      the path is missing or a folder. The containment check against the
      data directory rejects nothing. */
  function DeleteAssetOutcome(d: Disk, dataDir: string, url: string): (o: Outcome<()>)
    ensures o.result.Ok? <==> AssetPath(url).Ok?
    ensures AssetPath(url).Err? ==> o == Outcome(Err(InvalidUtf8), d)
    ensures AssetPath(url).Ok? ==>
              forall k :: k in o.disk <==> k in EnsureDir(d, dataDir) && !(k == AssetPath(url).value && IsFile(d, k))
    ensures forall k :: k in o.disk ==> o.disk[k] == EnsureDir(d, dataDir)[k]
  {
    match AssetPath(url)
    case Err(e) => Outcome(Err(e), d)
    case Ok(p) =>
      var d1 := EnsureDir(d, dataDir);
      if IsFile(d1, p) then Outcome(Ok(()), d1 - {p}) else Outcome(Ok(()), d1)
  }

  /** `load_note`: a note that does not exist reads as empty; otherwise the
      file is read as UTF-8. */
  function LoadNoteOutcome(d: Disk, dataDir: string, path: string): (o: Outcome<string>)
    ensures o.disk == EnsureDir(d, dataDir)
    ensures NoteFile(dataDir, path) !in o.disk ==> o.result == Ok("")
    ensures NoteFile(dataDir, path) in o.disk ==>
              (o.result.Ok? <==> IsFile(o.disk, NoteFile(dataDir, path)) && Utf8Decode(o.disk[NoteFile(dataDir, path)].data).Some?)
    ensures NoteFile(dataDir, path) in o.disk && o.result.Ok? ==>
              Utf8Decode(o.disk[NoteFile(dataDir, path)].data) == Some(o.result.value)
  {
    var d1 := EnsureDir(d, dataDir);
    var p := NoteFile(dataDir, path);
    if p !in d1 then Outcome(Ok(""), d1) else Outcome(ReadToString(d1, p), d1)
  }

  /** `save_note`: makes the note's folder (ignoring failure) and writes
      the text as UTF-8. */
  function SaveNoteOutcome(d: Disk, dataDir: string, path: string, content: string): (o: Outcome<()>)
    ensures o.result.Ok? ==> NoteFile(dataDir, path) in o.disk && o.disk[NoteFile(dataDir, path)] == File(Utf8Encode(content))
    ensures forall k :: k in d && k != NoteFile(dataDir, path) ==> k in o.disk && o.disk[k] == d[k]
  {
    var d1 := EnsureDir(d, dataDir);
    var p := NoteFile(dataDir, path);
    var d2 := CreateDirAllIgnored(d1, ParentDir(p));
    match WriteFile(d2, p, Utf8Encode(content))
    case Err(e) => Outcome(Err(e), d2)
    case Ok(d3) => Outcome(Ok(()), d3)
  }

  /** A saved note reads back as the text saved. */
  lemma SaveThenLoad(d: Disk, dataDir: string, path: string, content: string)
    requires SaveNoteOutcome(d, dataDir, path, content).result.Ok?
    ensures LoadNoteOutcome(SaveNoteOutcome(d, dataDir, path, content).disk, dataDir, path).result == Ok(content)
  {
    Utf8RoundTrip(content);
  }

  /** `create_note`: refuses a note that exists; otherwise makes its folder
      and writes `# `. */
  function CreateNoteOutcome(d: Disk, dataDir: string, path: string): (o: Outcome<()>)
    ensures NoteFile(dataDir, path) in EnsureDir(d, dataDir) ==> o == Outcome(Err(AlreadyExists), EnsureDir(d, dataDir))
    ensures o.result.Ok? ==>
              NoteFile(dataDir, path) !in d && NoteFile(dataDir, path) in o.disk && o.disk[NoteFile(dataDir, path)] == File(Utf8Encode("# "))
    ensures forall k :: k in d ==> k in o.disk && o.disk[k] == d[k]
  {
    var d1 := EnsureDir(d, dataDir);
    var p := NoteFile(dataDir, path);
    if p in d1 then Outcome(Err(AlreadyExists), d1)
    else
      var d2 := CreateDirAllIgnored(d1, ParentDir(p));
      match WriteFile(d2, p, Utf8Encode("# "))
      case Err(e) => Outcome(Err(e), d2)
      case Ok(d3) => Outcome(Ok(()), d3)
  }

  /** `create_folder`: `create_dir_all` under the data directory, with its
      error passed on. */
  function CreateFolderOutcome(d: Disk, dataDir: string, path: string): (o: Outcome<()>)
    ensures o.result.Ok? <==> forall a :: a in Chain(PathJoin(dataDir, path)) ==> !IsFile(EnsureDir(d, dataDir), a)
    ensures o.result.Ok? ==> IsDir(o.disk, PathJoin(dataDir, path))
    ensures forall k :: k in d ==> k in o.disk && o.disk[k] == d[k]
  {
    var d1 := EnsureDir(d, dataDir);
    match CreateDirAll(d1, PathJoin(dataDir, path))
    case Err(e) => Outcome(Err(e), d1)
    case Ok(d2) => Outcome(Ok(()), d2)
  }

  /** The disk once the data directory and the trash exist. */
  function WithTrash(d: Disk, dataDir: string): (r: Disk)
    ensures forall k :: k in d ==> k in r && r[k] == d[k]
  {
    EnsureDir(EnsureDir(d, dataDir), TrashDir(dataDir))
  }

  /** `delete_item`: moves a note or folder into the trash under its
      time-stamped name; nothing happens when it does not exist. */
  function DeleteItemOutcome(d: Disk, dataDir: string, path: string, isDir: bool, now: nat): (o: Outcome<()>)
    ensures ItemPath(dataDir, path, isDir) !in WithTrash(d, dataDir) ==> o == Outcome(Ok(()), WithTrash(d, dataDir))
    ensures ItemPath(dataDir, path, isDir) in WithTrash(d, dataDir) && TrashName(ItemPath(dataDir, path, isDir), isDir, now).None? ==>
              o.result == Err(Panicked)
    ensures o.result.Ok? && ItemPath(dataDir, path, isDir) in WithTrash(d, dataDir) ==>
              var src := ItemPath(dataDir, path, isDir);
              var dst := PathJoin(TrashDir(dataDir), TrashName(src, isDir, now).value);
              && TrashName(src, isDir, now).Some?
              && dst in o.disk && o.disk[dst] == WithTrash(d, dataDir)[src]
              && (src != dst ==> src !in o.disk)
              && (src != dst ==> forall k :: k in WithTrash(d, dataDir) && Within(k, src) ==>
                                   dst + k[|src|..] in o.disk && o.disk[dst + k[|src|..]] == WithTrash(d, dataDir)[k])
              && forall k :: k in WithTrash(d, dataDir) && !Within(k, src) && !Within(k, dst) ==>
                   k in o.disk && o.disk[k] == WithTrash(d, dataDir)[k]
  {
    var d2 := WithTrash(d, dataDir);
    var src := ItemPath(dataDir, path, isDir);
    if src !in d2 then Outcome(Ok(()), d2)
    else match TrashName(src, isDir, now)
      case None => Outcome(Err(Panicked), d2)
      case Some(name) =>
        var dst := PathJoin(TrashDir(dataDir), name);
        match Rename(d2, src, dst)
        case Err(e) => Outcome(Err(e), d2)
        case Ok(d3) =>
          RenameEntry(d2, src, dst);
          Outcome(Ok(()), d3)
  }

  /** Where `restore_trash_item` puts the trash entry `fileName`: the
      restored name at the top of the data directory, or `restored_<name>`
      when that is taken. */
  function RestoreTarget(d: Disk, dataDir: string, fileName: string): (r: string)
    ensures PathJoin(dataDir, RestoreName(fileName)) !in d ==> r == PathJoin(dataDir, RestoreName(fileName))
    ensures PathJoin(dataDir, RestoreName(fileName)) in d ==> r == PathJoin(dataDir, "restored_" + RestoreName(fileName))
  {
    var name := RestoreName(fileName);
    var target := PathJoin(dataDir, name);
    if target in d then PathJoin(dataDir, "restored_" + name) else target
  }

  /** `restore_trash_item`: a missing trash entry is an error; otherwise it
      is renamed to its restore target. */
  function RestoreTrashItemOutcome(d: Disk, dataDir: string, fileName: string): (o: Outcome<()>)
    ensures PathJoin(TrashDir(dataDir), fileName) !in WithTrash(d, dataDir) ==>
              o == Outcome(Err(FileMissing), WithTrash(d, dataDir))
    ensures o.result.Ok? ==>
              var src := PathJoin(TrashDir(dataDir), fileName);
              var dst := RestoreTarget(WithTrash(d, dataDir), dataDir, fileName);
              && src in WithTrash(d, dataDir)
              && dst in o.disk && o.disk[dst] == WithTrash(d, dataDir)[src]
              && (src != dst ==> src !in o.disk)
  {
    var d2 := WithTrash(d, dataDir);
    var src := PathJoin(TrashDir(dataDir), fileName);
    if src !in d2 then Outcome(Err(FileMissing), d2)
    else
      var dst := RestoreTarget(d2, dataDir, fileName);
      match Rename(d2, src, dst)
      case Err(e) => Outcome(Err(e), d2)
      case Ok(d3) =>
        RenameEntry(d2, src, dst);
        Outcome(Ok(()), d3)
  }

  /** The second half of `rename_item`: when `assets/<old>` exists, make
      the parent of `assets/<new>` and move the folder there, ignoring both
      failures. */
  function MoveAssets(d: Disk, dataDir: string, oldPath: string, newPath: string): (r: Disk)
    ensures PathJoin(AssetsRoot(dataDir), oldPath) !in d ==> r == d
    ensures var oldA := PathJoin(AssetsRoot(dataDir), oldPath);
            var newA := PathJoin(AssetsRoot(dataDir), newPath);
            var d1 := CreateDirAllIgnored(d, ParentDir(newA));
            oldA in d && Rename(d1, oldA, newA).Ok? ==> newA in r && r[newA] == d[oldA]
    ensures var oldA := PathJoin(AssetsRoot(dataDir), oldPath);
            var newA := PathJoin(AssetsRoot(dataDir), newPath);
            forall k :: k in d && !Within(k, oldA) && !Within(k, newA) ==> k in r && r[k] == d[k]
    ensures var newA := PathJoin(AssetsRoot(dataDir), newPath);
            forall k :: k in r ==> k in d || k in Chain(ParentDir(newA)) || Within(k, newA)
    ensures var oldA := PathJoin(AssetsRoot(dataDir), oldPath);
            var newA := PathJoin(AssetsRoot(dataDir), newPath);
            oldA in d && newA !in d && oldA != newA && !Below(newA, oldA) && !Below(oldA, newA)
            && (forall a :: a in Chain(ParentDir(newA)) ==> !IsFile(d, a)) ==>
              && (forall k :: k in d && Within(k, oldA) ==> newA + k[|oldA|..] in r && r[newA + k[|oldA|..]] == d[k])
              && (forall k :: k in r ==> !Within(k, oldA))
  {
    var oldA := PathJoin(AssetsRoot(dataDir), oldPath);
    var newA := PathJoin(AssetsRoot(dataDir), newPath);
    if oldA !in d then d
    else
      var d1 := CreateDirAllIgnored(d, ParentDir(newA));
      assert ParentDir(newA) in Chain(ParentDir(newA));
      ChainPrefixes(ParentDir(newA));
      match Rename(d1, oldA, newA)
      case Err(_) => d1
      case Ok(d2) =>
        RenameEntry(d1, oldA, newA);
        d2
  }

  /** `rename_item`: makes the new parent folder, moves the note file (or
      the folder), passing on the rename's error, and then moves the
      note's asset folder along. */
  function RenameItemOutcome(d: Disk, dataDir: string, oldPath: string, newPath: string, isDir: bool): (o: Outcome<()>)
    ensures forall k :: k in d && !Within(k, ItemPath(dataDir, oldPath, isDir)) && !Within(k, ItemPath(dataDir, newPath, isDir))
                         && !Within(k, PathJoin(AssetsRoot(dataDir), oldPath)) && !Within(k, PathJoin(AssetsRoot(dataDir), newPath)) ==>
              k in o.disk && o.disk[k] == d[k]
  {
    var d1 := EnsureDir(EnsureDir(d, dataDir), AssetsRoot(dataDir));
    var oldFull := ItemPath(dataDir, oldPath, isDir);
    var newFull := ItemPath(dataDir, newPath, isDir);
    var d2 := CreateDirAllIgnored(d1, ParentDir(newFull));
    match Rename(d2, oldFull, newFull)
    case Err(e) => Outcome(Err(e), d2)
    case Ok(d3) => Outcome(Ok(()), MoveAssets(d3, dataDir, oldPath, newPath))
  }

  /** The shape of a note file's name `<c>.md`. */
  lemma NoteNameShape(dataDir: string, c: string)
    requires '/' !in c
    ensures '/' !in c + ".md" && c + ".md" != "assets" && c + ".md" != ".trash"
    ensures NoteFile(dataDir, c) !in Chain(AssetsRoot(dataDir))
  {
    var n := c + ".md";
    assert n[|n| - 1] == 'd';
    forall i | 0 <= i < |n| ensures n[i] != '/' {
      if i < |c| {
        assert n[i] == c[i];
      }
    }
    var f := NoteFile(dataDir, c);
    var assets := AssetsRoot(dataDir);
    ChainPrefixes(assets);
    assert assets[|dataDir| + 1..] == "assets";
    assert forall i :: |dataDir| + 1 <= i < |assets| ==> assets[i] == assets[|dataDir| + 1..][i - |dataDir| - 1];
    assert f[|f| - 1] == 'd' && |f| - 1 >= |dataDir| + 1;
  }

  /** Moving the asset folder leaves alone every path outside both asset
      folders and off the chain of the assets root. */
  lemma MoveAssetsKeeps(d: Disk, dataDir: string, oldPath: string, newPath: string, k: string)
    requires ParentDir(PathJoin(AssetsRoot(dataDir), newPath)) == AssetsRoot(dataDir)
    requires k !in Chain(AssetsRoot(dataDir))
    requires !Within(k, PathJoin(AssetsRoot(dataDir), oldPath)) && !Within(k, PathJoin(AssetsRoot(dataDir), newPath))
    ensures k in MoveAssets(d, dataDir, oldPath, newPath) <==> k in d
    ensures k in d ==> MoveAssets(d, dataDir, oldPath, newPath)[k] == d[k]
  {
  }

  /** The paths `rename_item` works on for a top-level note, and how they
      lie apart. */
  lemma RenamePaths(dataDir: string, oldName: string, newName: string)
    requires '/' !in oldName && '/' !in newName && oldName != newName
    ensures var oldFull := NoteFile(dataDir, oldName);
            var newFull := NoteFile(dataDir, newName);
            var oldA := PathJoin(AssetsRoot(dataDir), oldName);
            var newA := PathJoin(AssetsRoot(dataDir), newName);
            && ItemPath(dataDir, oldName, false) == oldFull && ItemPath(dataDir, newName, false) == newFull
            && ParentDir(newFull) == dataDir && ParentDir(newA) == AssetsRoot(dataDir)
            && oldFull !in Chain(AssetsRoot(dataDir)) && newFull !in Chain(AssetsRoot(dataDir))
            && !Within(oldFull, oldA) && !Within(oldFull, newA) && !Within(newFull, oldA) && !Within(newFull, newA)
            && !Within(oldA, oldFull) && !Within(oldA, newFull)
            && !Within(oldA, newA) && !Within(newA, oldA)
  {
    var assets := AssetsRoot(dataDir);
    NoteNameShape(dataDir, oldName);
    NoteNameShape(dataDir, newName);
    ParentOfJoin(dataDir, newName + ".md");
    ParentOfJoin(assets, newName);
    NestedApart(dataDir, oldName + ".md", "assets", oldName);
    NestedApart(dataDir, newName + ".md", "assets", oldName);
    NestedApart(dataDir, oldName + ".md", "assets", newName);
    NestedApart(dataDir, newName + ".md", "assets", newName);
    NamesApart(assets, oldName, newName);
    NamesApart(assets, newName, oldName);
  }

  /** With both folders present, renaming a top-level note renames the file
      inside the data folder and then moves the asset folder. */
  lemma RenameNoteSteps(d: Disk, dataDir: string, oldName: string, newName: string)
    requires IsDir(d, dataDir) && IsDir(d, AssetsRoot(dataDir))
    requires '/' !in oldName && '/' !in newName && oldName != newName
    ensures var d2 := CreateDirAllIgnored(d, dataDir);
            var o := RenameItemOutcome(d, dataDir, oldName, newName, false);
            match Rename(d2, NoteFile(dataDir, oldName), NoteFile(dataDir, newName))
            case Err(e) => o == Outcome(Err(e), d2)
            case Ok(d3) => o == Outcome(Ok(()), MoveAssets(d3, dataDir, oldName, newName))
  {
    RenamePaths(dataDir, oldName, newName);
    assert EnsureDir(EnsureDir(d, dataDir), AssetsRoot(dataDir)) == d;
  }

  /** The asset step leaves both note files as they are. */
  lemma AssetStepKeepsNotes(d3: Disk, dataDir: string, oldName: string, newName: string)
    requires '/' !in oldName && '/' !in newName && oldName != newName
    ensures var d4 := MoveAssets(d3, dataDir, oldName, newName);
            && (NoteFile(dataDir, newName) in d4 <==> NoteFile(dataDir, newName) in d3)
            && (NoteFile(dataDir, newName) in d3 ==> d4[NoteFile(dataDir, newName)] == d3[NoteFile(dataDir, newName)])
            && (NoteFile(dataDir, oldName) in d4 <==> NoteFile(dataDir, oldName) in d3)
  {
    RenamePaths(dataDir, oldName, newName);
    MoveAssetsKeeps(d3, dataDir, oldName, newName, NoteFile(dataDir, newName));
    MoveAssetsKeeps(d3, dataDir, oldName, newName, NoteFile(dataDir, oldName));
  }

  /** The note-file step followed by the asset step leaves the note under
      its new name only. */
  lemma NoteMovedPastAssets(d2: Disk, dataDir: string, oldName: string, newName: string)
    requires '/' !in oldName && '/' !in newName && oldName != newName
    requires Rename(d2, NoteFile(dataDir, oldName), NoteFile(dataDir, newName)).Ok?
    ensures var d4 := MoveAssets(Rename(d2, NoteFile(dataDir, oldName), NoteFile(dataDir, newName)).value, dataDir, oldName, newName);
            && NoteFile(dataDir, newName) in d4 && d4[NoteFile(dataDir, newName)] == d2[NoteFile(dataDir, oldName)]
            && NoteFile(dataDir, oldName) !in d4
  {
    var oldFull := NoteFile(dataDir, oldName);
    var newFull := NoteFile(dataDir, newName);
    assert oldFull != newFull by {
      assert oldFull[|dataDir| + 1..] == oldName + ".md";
      assert newFull[|dataDir| + 1..] == newName + ".md";
      assert (oldName + ".md")[..|oldName + ".md"| - 3] == oldName;
      assert (newName + ".md")[..|newName + ".md"| - 3] == newName;
    }
    RenameEntry(d2, oldFull, newFull);
    AssetStepKeepsNotes(Rename(d2, oldFull, newFull).value, dataDir, oldName, newName);
  }

  /** Renaming a top-level note moves its file to the new name. */
  lemma RenameItemMovesNote(d: Disk, dataDir: string, oldName: string, newName: string)
    requires IsDir(d, dataDir) && IsDir(d, AssetsRoot(dataDir))
    requires '/' !in oldName && '/' !in newName && oldName != newName
    requires RenameItemOutcome(d, dataDir, oldName, newName, false).result.Ok?
    ensures var o := RenameItemOutcome(d, dataDir, oldName, newName, false);
            && NoteFile(dataDir, oldName) in d
            && NoteFile(dataDir, newName) in o.disk
            && o.disk[NoteFile(dataDir, newName)] == d[NoteFile(dataDir, oldName)]
            && NoteFile(dataDir, oldName) !in o.disk
  {
    var oldFull := NoteFile(dataDir, oldName);
    var newFull := NoteFile(dataDir, newName);
    RenameNoteSteps(d, dataDir, oldName, newName);
    var d2 := CreateDirAllIgnored(d, dataDir);
    assert Rename(d2, oldFull, newFull).Ok?;
    NoteMovedPastAssets(d2, dataDir, oldName, newName);
    ChainPrefixes(dataDir);
    assert oldFull !in Chain(dataDir);
  }

  /** The note-file step followed by the asset step moves a free asset
      folder to the new name. */
  lemma AssetsMovedPastNote(d2: Disk, dataDir: string, oldName: string, newName: string)
    requires '/' !in oldName && '/' !in newName && oldName != newName
    requires IsDir(d2, AssetsRoot(dataDir))
    requires PathJoin(AssetsRoot(dataDir), oldName) in d2 && PathJoin(AssetsRoot(dataDir), newName) !in d2
    requires Rename(d2, NoteFile(dataDir, oldName), NoteFile(dataDir, newName)).Ok?
    ensures var d4 := MoveAssets(Rename(d2, NoteFile(dataDir, oldName), NoteFile(dataDir, newName)).value, dataDir, oldName, newName);
            && PathJoin(AssetsRoot(dataDir), newName) in d4
            && d4[PathJoin(AssetsRoot(dataDir), newName)] == d2[PathJoin(AssetsRoot(dataDir), oldName)]
  {
    var oldFull := NoteFile(dataDir, oldName);
    var newFull := NoteFile(dataDir, newName);
    var assets := AssetsRoot(dataDir);
    var oldA := PathJoin(assets, oldName);
    var newA := PathJoin(assets, newName);
    RenamePaths(dataDir, oldName, newName);
    var d3 := Rename(d2, oldFull, newFull).value;
    assert oldA in d3 && d3[oldA] == d2[oldA] && newA !in d3 && IsDir(d3, assets);
    var d4 := CreateDirAllIgnored(d3, assets);
    ChainPrefixes(assets);
    assert newA !in Chain(assets);
    assert Rename(d4, oldA, newA).Ok?;
  }

  /** Renaming a top-level note moves its asset folder along when the new
      name's folder is free. */
  lemma RenameItemMovesAssets(d: Disk, dataDir: string, oldName: string, newName: string)
    requires IsDir(d, dataDir) && IsDir(d, AssetsRoot(dataDir))
    requires '/' !in oldName && '/' !in newName && oldName != newName
    requires PathJoin(AssetsRoot(dataDir), oldName) in d && PathJoin(AssetsRoot(dataDir), newName) !in d
    requires RenameItemOutcome(d, dataDir, oldName, newName, false).result.Ok?
    ensures var o := RenameItemOutcome(d, dataDir, oldName, newName, false);
            && PathJoin(AssetsRoot(dataDir), newName) in o.disk
            && o.disk[PathJoin(AssetsRoot(dataDir), newName)] == d[PathJoin(AssetsRoot(dataDir), oldName)]
  {
    var newA := PathJoin(AssetsRoot(dataDir), newName);
    RenameNoteSteps(d, dataDir, oldName, newName);
    var d2 := CreateDirAllIgnored(d, dataDir);
    assert Rename(d2, NoteFile(dataDir, oldName), NoteFile(dataDir, newName)).Ok?;
    ChainPrefixes(dataDir);
    assert newA !in Chain(dataDir);
    AssetsMovedPastNote(d2, dataDir, oldName, newName);
  }

  /** Different item names give different item paths. */
  lemma ItemPathInjective(dataDir: string, p: string, q: string, isDir: bool)
    requires p != q
    ensures ItemPath(dataDir, p, isDir) != ItemPath(dataDir, q, isDir)
  {
    var n := |dataDir| + 1;
    assert PathJoin(dataDir, p)[n..] == p && PathJoin(dataDir, q)[n..] == q;
    assert NoteFile(dataDir, p)[n..] == p + ".md" && NoteFile(dataDir, q)[n..] == q + ".md";
    assert (p + ".md")[..|p|] == p && (q + ".md")[..|q|] == q;
  }

  /** A path inside a folder of the assets tree is not inside an item
      apart from that tree. */
  lemma InsideAssetsApart(k: string, x: string, item: string, assets: string)
    requires Within(k, x) && Within(x, assets) && Apart(item, assets)
    ensures !Within(k, item)
  {
    WithinTransitive(k, x, assets);
    if Within(k, item) {
      WithinComparable(k, assets, item);
    }
  }

  /** `staged` is `d` with directories added on the way to the assets
      folder or to the new item. */
  predicate Staged(d: Disk, staged: Disk, assets: string, newFull: string) {
    && (forall k :: k in d ==> k in staged && staged[k] == d[k])
    && (forall k :: k in staged && k !in d ==> staged[k] == Dir && (Within(assets, k) || Within(newFull, k)))
  }

  /** What `rename_item` adds before renaming: directories on the way to the
      assets folder or to the new item. */
  lemma RenamePrepared(d: Disk, dataDir: string, newFull: string)
    requires '/' in newFull
    ensures Staged(d, CreateDirAllIgnored(EnsureDir(EnsureDir(d, dataDir), AssetsRoot(dataDir)), ParentDir(newFull)),
                   AssetsRoot(dataDir), newFull)
  {
    var assets := AssetsRoot(dataDir);
    var d0 := EnsureDir(d, dataDir);
    var d1 := EnsureDir(d0, assets);
    var d2 := CreateDirAllIgnored(d1, ParentDir(newFull));
    EnsureDirAddsWithin(d, dataDir);
    EnsureDirAddsWithin(d0, assets);
    CreateDirAllAddsWithin(d1, ParentDir(newFull));
    assert Within(assets, dataDir) by {
      assert assets[..|dataDir|] == dataDir && assets[|dataDir|] == '/';
    }
    BelowParent(newFull);
    forall k | k in d2 && k !in d
      ensures d2[k] == Dir && (Within(assets, k) || Within(newFull, k))
    {
      if k !in d1 {
        WithinTransitive(newFull, ParentDir(newFull), k);
      } else if k !in d0 {
      } else {
        WithinTransitive(assets, dataDir, k);
      }
    }
  }

  /** `EnsureDir(d, p)` adds only directories holding `p`. */
  lemma EnsureDirAddsWithin(d: Disk, p: string)
    ensures forall k :: k in EnsureDir(d, p) && k !in d ==> EnsureDir(d, p)[k] == Dir && Within(p, k)
  {
    EnsureDirAddsDirs(d, p);
    forall k | k in EnsureDir(d, p) && k !in d
      ensures Within(p, k)
    {
      ChainWithin(p, k);
    }
  }

  /** `create_dir_all(p)` adds only directories holding `p`. */
  lemma CreateDirAllAddsWithin(d: Disk, p: string)
    ensures forall k :: k in CreateDirAllIgnored(d, p) && k !in d ==> CreateDirAllIgnored(d, p)[k] == Dir && Within(p, k)
  {
    CreateDirAllAddsDirs(d, p);
    forall k | k in CreateDirAllIgnored(d, p) && k !in d
      ensures Within(p, k)
    {
      ChainWithin(p, k);
    }
  }

  /** A successful `rename_item` is the item's rename on the staged disk
      followed by the asset step. */
  lemma RenameItemSteps(d: Disk, dataDir: string, oldPath: string, newPath: string, isDir: bool)
    requires RenameItemOutcome(d, dataDir, oldPath, newPath, isDir).result.Ok?
    ensures var staged := CreateDirAllIgnored(EnsureDir(EnsureDir(d, dataDir), AssetsRoot(dataDir)),
                                              ParentDir(ItemPath(dataDir, newPath, isDir)));
            var moved := Rename(staged, ItemPath(dataDir, oldPath, isDir), ItemPath(dataDir, newPath, isDir));
            moved.Ok? && RenameItemOutcome(d, dataDir, oldPath, newPath, isDir).disk == MoveAssets(moved.value, dataDir, oldPath, newPath)
  {
  }

  /** The item step and then the asset step, for items apart from the
      assets folder: the item's tree arrives at the new path, and nothing
      is left at or below the old one. */
  lemma MovedItemSurvives(d: Disk, d2: Disk, d3: Disk, r: Disk, assets: string,
                          oldFull: string, newFull: string, oldA: string, newA: string)
    requires oldFull != newFull && Apart(oldFull, assets) && Apart(newFull, assets)
    requires Below(oldA, assets) && Below(newA, assets) && '/' in newA
    requires Staged(d, d2, assets, newFull)
    requires Rename(d2, oldFull, newFull) == Ok(d3)
    requires forall k :: k in d3 && !Within(k, oldA) && !Within(k, newA) ==> k in r && r[k] == d3[k]
    requires forall k :: k in r ==> k in d3 || k in Chain(ParentDir(newA)) || Within(k, newA)
    ensures oldFull in d
    ensures forall k :: k in d && Within(k, oldFull) ==> newFull + k[|oldFull|..] in r && r[newFull + k[|oldFull|..]] == d[k]
    ensures forall k :: k in r ==> !Within(k, oldFull)
  {
    forall k | k in d && Within(k, oldFull)
      ensures newFull + k[|oldFull|..] in r && r[newFull + k[|oldFull|..]] == d[k]
    {
      var m := newFull + k[|oldFull|..];
      WithinMoved(k, oldFull, newFull);
      if Within(m, oldA) {
        InsideAssetsApart(m, oldA, newFull, assets);
      }
      if Within(m, newA) {
        InsideAssetsApart(m, newA, newFull, assets);
      }
    }
    forall k | k in r
      ensures !Within(k, oldFull)
    {
      if Within(k, oldFull) && k !in d3 {
        if Within(k, newA) {
          InsideAssetsApart(k, newA, oldFull, assets);
        } else {
          ParentChainWithin(newA, k);
          WithinTransitive(newA, k, oldFull);
          InsideAssetsApart(newA, newA, oldFull, assets);
        }
      }
    }
  }

  /** The item step leaves the old asset folder's tree as it was, keeps
      the new asset path free, and puts no file on its parent folders. */
  lemma ItemStepKeepsAssets(d: Disk, d2: Disk, d3: Disk, assets: string,
                            oldFull: string, newFull: string, oldA: string, newA: string)
    requires oldFull != newFull && Apart(oldFull, assets) && Apart(newFull, assets)
    requires Below(oldA, assets) && Below(newA, assets) && '/' in newA
    requires Staged(d, d2, assets, newFull)
    requires Rename(d2, oldFull, newFull) == Ok(d3)
    requires newA !in d
    requires forall a :: a in Chain(ParentDir(newA)) ==> !IsFile(d, a)
    ensures forall k :: k in d && Within(k, oldA) ==> k in d3 && d3[k] == d[k]
    ensures newA !in d3
    ensures forall a :: a in Chain(ParentDir(newA)) ==> !IsFile(d3, a)
  {
    forall k | k in d && Within(k, oldA)
      ensures k in d3 && d3[k] == d[k]
    {
      InsideAssetsApart(k, oldA, oldFull, assets);
      InsideAssetsApart(k, oldA, newFull, assets);
    }
    InsideAssetsApart(newA, newA, newFull, assets);
    if newA in d2 && Within(newFull, newA) {
      WithinTransitive(newFull, newA, assets);
    }
    forall a | a in Chain(ParentDir(newA))
      ensures !IsFile(d3, a)
    {
      ParentChainWithin(newA, a);
      if Within(a, newFull) {
        WithinTransitive(newA, a, newFull);
        InsideAssetsApart(newA, newA, newFull, assets);
      }
    }
  }

  /** How the paths `rename_item` works on lie: the two item paths differ,
      the new one has a parent, and both asset folders lie in the assets
      folder and differ. */
  lemma RenamePathFacts(dataDir: string, oldPath: string, newPath: string, isDir: bool)
    requires oldPath != newPath
    ensures ItemPath(dataDir, oldPath, isDir) != ItemPath(dataDir, newPath, isDir)
    ensures '/' in ItemPath(dataDir, newPath, isDir)
    ensures Below(PathJoin(AssetsRoot(dataDir), oldPath), AssetsRoot(dataDir))
    ensures Below(PathJoin(AssetsRoot(dataDir), newPath), AssetsRoot(dataDir))
    ensures '/' in PathJoin(AssetsRoot(dataDir), newPath)
    ensures PathJoin(AssetsRoot(dataDir), oldPath) != PathJoin(AssetsRoot(dataDir), newPath)
  {
    var assets := AssetsRoot(dataDir);
    var oldA := PathJoin(assets, oldPath);
    var newA := PathJoin(assets, newPath);
    ItemPathInjective(dataDir, oldPath, newPath, isDir);
    assert ItemPath(dataDir, newPath, isDir)[|dataDir|] == '/' && newA[|assets|] == '/';
    assert oldA[..|assets|] == assets && newA[..|assets|] == assets;
    assert oldA[|assets| + 1..] == oldPath && newA[|assets| + 1..] == newPath;
  }

  /** Renaming a note or folder whose old and new paths lie apart from the
      assets folder moves it, with everything inside it, to the new path,
      and leaves nothing at or below the old one. */
  lemma RenameItemMovesItem(d: Disk, dataDir: string, oldPath: string, newPath: string, isDir: bool)
    requires oldPath != newPath
    requires Apart(ItemPath(dataDir, oldPath, isDir), AssetsRoot(dataDir))
    requires Apart(ItemPath(dataDir, newPath, isDir), AssetsRoot(dataDir))
    requires RenameItemOutcome(d, dataDir, oldPath, newPath, isDir).result.Ok?
    ensures var o := RenameItemOutcome(d, dataDir, oldPath, newPath, isDir);
            var oldFull := ItemPath(dataDir, oldPath, isDir);
            var newFull := ItemPath(dataDir, newPath, isDir);
            && oldFull in d && newFull in o.disk && o.disk[newFull] == d[oldFull]
            && (forall k :: k in d && Within(k, oldFull) ==>
                  newFull + k[|oldFull|..] in o.disk && o.disk[newFull + k[|oldFull|..]] == d[k])
            && (forall k :: k in o.disk ==> !Within(k, oldFull))
  {
    var assets := AssetsRoot(dataDir);
    var oldFull := ItemPath(dataDir, oldPath, isDir);
    var newFull := ItemPath(dataDir, newPath, isDir);
    var oldA := PathJoin(assets, oldPath);
    var newA := PathJoin(assets, newPath);
    RenamePathFacts(dataDir, oldPath, newPath, isDir);
    RenamePrepared(d, dataDir, newFull);
    RenameItemSteps(d, dataDir, oldPath, newPath, isDir);
    var d2 := CreateDirAllIgnored(EnsureDir(EnsureDir(d, dataDir), assets), ParentDir(newFull));
    var d3 := Rename(d2, oldFull, newFull).value;
    var o := RenameItemOutcome(d, dataDir, oldPath, newPath, isDir);
    assert o.disk == MoveAssets(d3, dataDir, oldPath, newPath);
    MovedItemSurvives(d, d2, d3, o.disk, assets, oldFull, newFull, oldA, newA);
    assert Within(oldFull, oldFull) && newFull + oldFull[|oldFull|..] == newFull;
  }

  /** Under the same conditions, an existing asset folder of the old path
      moves with everything inside it to the new path's asset folder when
      that is free, neither lies inside the other and no file blocks its
      parent folders; nothing is left at or below the old one. */
  lemma RenameItemMovesAssetFolder(d: Disk, dataDir: string, oldPath: string, newPath: string, isDir: bool)
    requires oldPath != newPath
    requires Apart(ItemPath(dataDir, oldPath, isDir), AssetsRoot(dataDir))
    requires Apart(ItemPath(dataDir, newPath, isDir), AssetsRoot(dataDir))
    requires RenameItemOutcome(d, dataDir, oldPath, newPath, isDir).result.Ok?
    requires PathJoin(AssetsRoot(dataDir), oldPath) in d && PathJoin(AssetsRoot(dataDir), newPath) !in d
    requires !Below(PathJoin(AssetsRoot(dataDir), newPath), PathJoin(AssetsRoot(dataDir), oldPath))
    requires !Below(PathJoin(AssetsRoot(dataDir), oldPath), PathJoin(AssetsRoot(dataDir), newPath))
    requires forall a :: a in Chain(ParentDir(PathJoin(AssetsRoot(dataDir), newPath))) ==> !IsFile(d, a)
    ensures var o := RenameItemOutcome(d, dataDir, oldPath, newPath, isDir);
            var oldA := PathJoin(AssetsRoot(dataDir), oldPath);
            var newA := PathJoin(AssetsRoot(dataDir), newPath);
            && (forall k :: k in d && Within(k, oldA) ==> newA + k[|oldA|..] in o.disk && o.disk[newA + k[|oldA|..]] == d[k])
            && (forall k :: k in o.disk ==> !Within(k, oldA))
  {
    var assets := AssetsRoot(dataDir);
    var oldFull := ItemPath(dataDir, oldPath, isDir);
    var newFull := ItemPath(dataDir, newPath, isDir);
    var oldA := PathJoin(assets, oldPath);
    var newA := PathJoin(assets, newPath);
    RenamePathFacts(dataDir, oldPath, newPath, isDir);
    RenamePrepared(d, dataDir, newFull);
    RenameItemSteps(d, dataDir, oldPath, newPath, isDir);
    var d2 := CreateDirAllIgnored(EnsureDir(EnsureDir(d, dataDir), assets), ParentDir(newFull));
    var d3 := Rename(d2, oldFull, newFull).value;
    var o := RenameItemOutcome(d, dataDir, oldPath, newPath, isDir);
    assert o.disk == MoveAssets(d3, dataDir, oldPath, newPath);
    AssetFolderMoved(d, d2, d3, o.disk, assets, oldFull, newFull, oldA, newA);
  }

  /** The item step and then the asset step move a free asset folder's
      tree from `d` to its new place. */
  lemma AssetFolderMoved(d: Disk, d2: Disk, d3: Disk, r: Disk, assets: string,
                         oldFull: string, newFull: string, oldA: string, newA: string)
    requires oldFull != newFull && Apart(oldFull, assets) && Apart(newFull, assets)
    requires Below(oldA, assets) && Below(newA, assets) && '/' in newA
    requires Staged(d, d2, assets, newFull)
    requires Rename(d2, oldFull, newFull) == Ok(d3)
    requires oldA in d && newA !in d && oldA != newA && !Below(newA, oldA) && !Below(oldA, newA)
    requires forall a :: a in Chain(ParentDir(newA)) ==> !IsFile(d, a)
    requires oldA in d3 && newA !in d3 && (forall a :: a in Chain(ParentDir(newA)) ==> !IsFile(d3, a)) ==>
               && (forall k :: k in d3 && Within(k, oldA) ==> newA + k[|oldA|..] in r && r[newA + k[|oldA|..]] == d3[k])
               && (forall k :: k in r ==> !Within(k, oldA))
    ensures forall k :: k in d && Within(k, oldA) ==> newA + k[|oldA|..] in r && r[newA + k[|oldA|..]] == d[k]
    ensures forall k :: k in r ==> !Within(k, oldA)
  {
    assert Within(oldA, oldA);
    ItemStepKeepsAssets(d, d2, d3, assets, oldFull, newFull, oldA, newA);
    forall k | k in d && Within(k, oldA)
      ensures newA + k[|oldA|..] in r && r[newA + k[|oldA|..]] == d[k]
    {
      assert k in d3 && d3[k] == d[k];
    }
  }

  /** `save_image`: writes the bytes to `assets/<note path>/<file name>`,
      making the folder first, and returns that path. */
  function SaveImageOutcome(d: Disk, dataDir: string, fileName: string, payload: seq<byte>, notePath: string): (o: Outcome<string>)
    ensures o.result.Ok? ==>
              && o.result.value == PathJoin(PathJoin(AssetsRoot(dataDir), notePath), fileName)
              && o.result.value in o.disk && o.disk[o.result.value] == File(payload)
    ensures forall k :: k in d && k != PathJoin(PathJoin(AssetsRoot(dataDir), notePath), fileName) ==>
              k in o.disk && o.disk[k] == d[k]
  {
    var d1 := EnsureDir(EnsureDir(d, dataDir), AssetsRoot(dataDir));
    var target := PathJoin(AssetsRoot(dataDir), notePath);
    var made := if target in d1 then Ok(d1) else CreateDirAll(d1, target);
    match made
    case Err(e) => Outcome(Err(e), d1)
    case Ok(d2) =>
      var p := PathJoin(target, fileName);
      match WriteFile(d2, p, payload)
      case Err(e) => Outcome(Err(e), d2)
      case Ok(d3) => Outcome(Ok(p), d3)
  }

  /** Two different names in one folder are apart: neither lies inside
      the other. */
  lemma NamesApart(base: string, x: string, y: string)
    requires '/' !in x && '/' !in y && x != y
    ensures !Within(PathJoin(base, x), PathJoin(base, y))
  {
    var px := PathJoin(base, x);
    var py := PathJoin(base, y);
    assert px[|base| + 1..] == x && py[|base| + 1..] == y;
  }

  /** An entry `<base>/<y>/<z>` and the sibling `<base>/<x>` of `<base>/<y>`
      are apart. */
  lemma NestedApart(base: string, x: string, y: string, z: string)
    requires '/' !in x && '/' !in y && x != y
    ensures !Within(PathJoin(PathJoin(base, y), z), PathJoin(base, x))
    ensures !Within(PathJoin(base, x), PathJoin(PathJoin(base, y), z))
  {
    var src := PathJoin(base, x);
    var dst := PathJoin(PathJoin(base, y), z);
    var n := |base| + 1;
    assert src[..n] == dst[..n];
    assert forall i :: 0 <= i < |x| ==> src[n + i] == x[i];
    assert forall i :: 0 <= i < |y| ==> dst[n + i] == y[i];
    assert dst[n + |y|] == '/';
    if |x| > |y| {
      assert x[|y|] != '/';
      assert src[n + |y|] != dst[n + |y|];
    } else if |x| < |y| {
      assert x[..] == src[n..];
      assert dst[n + |x|] == y[|x|] && y[|x|] != '/';
      assert |dst| > |src|;
    } else {
      assert src[n..] == x && dst[n..n + |y|] == y;
    }
  }

  lemma StampedNoteName(c: string, now: nat)
    requires c != [] && '/' !in c
    ensures '/' !in c + ".md" && c + ".md" != ".trash"
    ensures '/' !in c + "_" + NatToString(now) + ".md"
  {
    NatToStringDigits(now);
    var n := c + ".md";
    assert n[|n| - 1] == 'd';
    var t := c + "_" + NatToString(now) + ".md";
    forall i | 0 <= i < |t| ensures t[i] != '/' {
      if i < |c| {
        assert t[i] == c[i];
      } else if |c| < i < |c| + 1 + |NatToString(now)| {
        assert t[i] == NatToString(now)[i - |c| - 1];
      }
    }
    forall i | 0 <= i < |n| ensures n[i] != '/' {
      if i < |c| {
        assert n[i] == c[i];
      }
    }
  }

  /** The names a top-level note `<c>.md` takes in the trash and back. */
  lemma TrashNames(dataDir: string, c: string, now: nat)
    requires c != [] && '/' !in c
    ensures var t := c + "_" + NatToString(now) + ".md";
            && ItemPath(dataDir, c, false) == NoteFile(dataDir, c)
            && TrashName(NoteFile(dataDir, c), false, now) == Some(t)
            && RestoreName(t) == c + ".md"
            && '/' !in t && '/' !in c + ".md" && c + ".md" != ".trash"
  {
    StampedNoteName(c, now);
    NoteTrashRoundTrip(dataDir, c, now);
  }

  /** A top-level note and an entry of the trash lie apart. */
  lemma TrashPathsApart(dataDir: string, name: string, t: string)
    requires '/' !in name && '/' !in t && name != ".trash"
    ensures var src := PathJoin(dataDir, name);
            var dst := PathJoin(TrashDir(dataDir), t);
            && ParentDir(dst) == TrashDir(dataDir) && ParentDir(src) == dataDir
            && src != dst && !Below(src, dst) && !Below(dst, src)
            && !Within(TrashDir(dataDir), src) && !Within(TrashDir(dataDir), dst)
            && !Within(dataDir, src) && !Within(dataDir, dst)
  {
    ParentOfJoin(TrashDir(dataDir), t);
    ParentOfJoin(dataDir, name);
    NestedApart(dataDir, name, ".trash", t);
    NamesApart(dataDir, ".trash", name);
  }

  lemma TrashPaths(dataDir: string, c: string, now: nat)
    requires c != [] && '/' !in c
    ensures var src := NoteFile(dataDir, c);
            var t := c + "_" + NatToString(now) + ".md";
            var dst := PathJoin(TrashDir(dataDir), t);
            && ItemPath(dataDir, c, false) == src
            && TrashName(src, false, now) == Some(t)
            && RestoreName(t) == c + ".md"
            && ParentDir(dst) == TrashDir(dataDir) && ParentDir(src) == dataDir
            && src != dst && !Below(src, dst) && !Below(dst, src)
            && !Within(TrashDir(dataDir), src) && !Within(TrashDir(dataDir), dst)
            && !Within(dataDir, src) && !Within(dataDir, dst)
  {
    TrashNames(dataDir, c, now);
    TrashPathsApart(dataDir, c + ".md", c + "_" + NatToString(now) + ".md");
  }

  /** A top-level note `<c>.md` goes to `.trash/<c>_<seconds>.md`. */
  lemma NoteToTrash(d: Disk, dataDir: string, c: string, now: nat)
    requires IsDir(d, dataDir) && IsDir(d, TrashDir(dataDir))
    requires c != [] && '/' !in c && NoteFile(dataDir, c) in d
    requires PathJoin(TrashDir(dataDir), c + "_" + NatToString(now) + ".md") !in d
    ensures var o := DeleteItemOutcome(d, dataDir, c, false, now);
            var dst := PathJoin(TrashDir(dataDir), c + "_" + NatToString(now) + ".md");
            && o.result.Ok?
            && dst in o.disk && o.disk[dst] == d[NoteFile(dataDir, c)]
            && NoteFile(dataDir, c) !in o.disk
            && IsDir(o.disk, dataDir) && IsDir(o.disk, TrashDir(dataDir))
  {
    TrashPaths(dataDir, c, now);
    assert WithTrash(d, dataDir) == d;
  }

  /** The trash entry `<c>_<seconds>.md` is restored to `<c>.md` at the top
      of the data directory when that name is free. */
  lemma NoteFromTrash(d: Disk, dataDir: string, c: string, now: nat)
    requires IsDir(d, dataDir) && IsDir(d, TrashDir(dataDir))
    requires c != [] && '/' !in c && NoteFile(dataDir, c) !in d
    requires PathJoin(TrashDir(dataDir), c + "_" + NatToString(now) + ".md") in d
    ensures var src := PathJoin(TrashDir(dataDir), c + "_" + NatToString(now) + ".md");
            var o := RestoreTrashItemOutcome(d, dataDir, c + "_" + NatToString(now) + ".md");
            && o.result.Ok?
            && NoteFile(dataDir, c) in o.disk && o.disk[NoteFile(dataDir, c)] == d[src]
            && src !in o.disk
  {
    TrashPaths(dataDir, c, now);
    assert WithTrash(d, dataDir) == d;
  }

  /** A top-level note sent to the trash comes back, by its trash name, to
      the place it was deleted from, with the same contents, and leaves
      the trash. */
  lemma NoteTrashRestore(d: Disk, dataDir: string, c: string, now: nat)
    requires IsDir(d, dataDir) && IsDir(d, TrashDir(dataDir))
    requires c != [] && '/' !in c && NoteFile(dataDir, c) in d
    requires PathJoin(TrashDir(dataDir), c + "_" + NatToString(now) + ".md") !in d
    ensures var o1 := DeleteItemOutcome(d, dataDir, c, false, now);
            var o2 := RestoreTrashItemOutcome(o1.disk, dataDir, c + "_" + NatToString(now) + ".md");
            && o1.result.Ok? && o2.result.Ok?
            && NoteFile(dataDir, c) in o2.disk && o2.disk[NoteFile(dataDir, c)] == d[NoteFile(dataDir, c)]
            && PathJoin(TrashDir(dataDir), c + "_" + NatToString(now) + ".md") !in o2.disk
  {
    NoteToTrash(d, dataDir, c, now);
    NoteFromTrash(DeleteItemOutcome(d, dataDir, c, false, now).disk, dataDir, c, now);
  }

  /** The URL the front end makes for a saved image opens that image, and
      deleting it removes exactly that file. */
  lemma SavedImageUrl(d: Disk, dataDir: string, fileName: string, payload: seq<byte>, notePath: string, windows: bool)
    requires SaveImageOutcome(d, dataDir, fileName, payload, notePath).result.Ok?
    ensures var o := SaveImageOutcome(d, dataDir, fileName, payload, notePath);
            var url := ConvertFileSrc(o.result.value, windows);
            && OpenTarget(o.disk, url) == Ok(o.result.value)
            && DeleteAssetOutcome(o.disk, dataDir, url).result.Ok?
            && (forall k :: k in DeleteAssetOutcome(o.disk, dataDir, url).disk <==> k in EnsureDir(o.disk, dataDir) && k != o.result.value)
  {
    var o := SaveImageOutcome(d, dataDir, fileName, payload, notePath);
    AssetPathOfConverted(o.result.value, windows);
  }

  // ---------------------------------------------------------------------
  // The commands
  // ---------------------------------------------------------------------

  /** The back end's disk; `dataDir` is the `data` folder beside the
      executable. */
  class Store {
    var disk: Disk
    const dataDir: string

    constructor(dataDir: string, disk: Disk)
      ensures this.dataDir == dataDir && this.disk == disk
    {
      this.dataDir := dataDir;
      this.disk := disk;
    }

    /** `scan_dir(data_dir, rel)`: reads the directory, keeps folders and
        `.md` files that are not hidden, recurses into folders and sorts.
        A directory that cannot be read lists as empty. */
    method ScanDir(rel: string) returns (nodes: seq<FileNode>)
      ensures IsListing(disk, dataDir, rel, nodes)
      decreases Depth(disk, dataDir, rel), 2
    {
      var raw: seq<FileNode> := [];
      if IsDir(disk, RelDir(dataDir, rel)) {
        raw := ScanChildren(rel);
      }
      nodes := SortBy(raw, NodeLeq);
      ScannedDone(disk, dataDir, rel, raw);
    }

    /** The loop of `scan_dir` over the directory's entries, in the
        unspecified order `read_dir` yields them. */
    method ScanChildren(rel: string) returns (raw: seq<FileNode>)
      requires IsDir(disk, RelDir(dataDir, rel))
      ensures Scanned(disk, dataDir, rel, raw, ChildKeys(disk, RelDir(dataDir, rel)))
      decreases Depth(disk, dataDir, rel), 1
    {
      var dir := RelDir(dataDir, rel);
      raw := [];
      var todo := ChildKeys(disk, dir);
      ghost var entries := todo;
      ghost var seen: set<string> := {};
      while todo != {}
        invariant todo !! seen && todo + seen == entries
        invariant Scanned(disk, dataDir, rel, raw, seen)
        decreases |todo|
      {
        var k :| k in todo;
        MoveOne(todo, seen, k);
        todo := todo - {k};
        if Shown(disk, dir, k) {
          var node := ScanEntry(rel, k);
          ScannedAdd(disk, dataDir, rel, raw, seen, k, node);
          raw := raw + [node];
        } else {
          ScannedSkip(disk, dataDir, rel, raw, seen, k);
        }
        seen := seen + {k};
      }
    }

    /** The body of `scan_dir`'s loop for one shown entry `k`: a folder is
        scanned recursively, a note is named by its stem. */
    method ScanEntry(rel: string, k: string) returns (node: FileNode)
      requires k in disk && IsChildOf(k, RelDir(dataDir, rel)) && Shown(disk, RelDir(dataDir, rel), k)
      ensures Describes(disk, RelDir(dataDir, rel), rel, k, node)
      ensures node.isDir ==> IsListing(disk, dataDir, JoinRel(rel, node.name), node.children)
      decreases Depth(disk, dataDir, rel), 0
    {
      var name := ChildName(k, RelDir(dataDir, rel));
      var isDir := disk[k].Dir?;
      var children: seq<FileNode> := [];
      if isDir {
        ListingShrinks(disk, dataDir, rel, name);
        children := ScanDir(JoinRel(rel, name));
      }
      var shown := if isDir then name else SplitExtension(name).0;
      node := FileNode(shown, Slashed(JoinRel(rel, shown)), isDir, children);
    }

    /** `get_file_tree`: the listing of the data directory itself, made
        first if it is missing. */
    method GetFileTree() returns (nodes: seq<FileNode>)
      modifies this
      ensures disk == EnsureDir(old(disk), dataDir)
      ensures IsListing(disk, dataDir, "", nodes)
    {
      disk := EnsureDir(disk, dataDir);
      nodes := ScanDir("");
    }

    /** `open_file`: the path the system opener is given. */
    method OpenFile(url: string) returns (r: Result<string, Failure>)
      ensures r == OpenTarget(disk, url)
    {
      var decoded := ParseAssetUrl(url);
      if decoded.Err? {
        return Err(decoded.error);
      }
      if decoded.value !in disk {
        return Err(FileMissing);
      }
      r := Ok(decoded.value);
    }

    method DeleteAsset(url: string) returns (r: Result<(), Failure>)
      modifies this
      ensures Outcome(r, disk) == DeleteAssetOutcome(old(disk), dataDir, url)
    {
      var decoded := ParseAssetUrl(url);
      if decoded.Err? {
        return Err(decoded.error);
      }
      var p := decoded.value;
      disk := EnsureDir(disk, dataDir);
      if IsFile(disk, p) {
        disk := disk - {p};
      }
      r := Ok(());
    }

    method LoadNote(path: string) returns (r: Result<string, Failure>)
      modifies this
      ensures Outcome(r, disk) == LoadNoteOutcome(old(disk), dataDir, path)
    {
      disk := EnsureDir(disk, dataDir);
      var p := NoteFile(dataDir, path);
      if p !in disk {
        return Ok("");
      }
      r := ReadToString(disk, p);
    }

    method SaveNote(path: string, content: string) returns (r: Result<(), Failure>)
      modifies this
      ensures Outcome(r, disk) == SaveNoteOutcome(old(disk), dataDir, path, content)
    {
      disk := EnsureDir(disk, dataDir);
      var p := NoteFile(dataDir, path);
      disk := CreateDirAllIgnored(disk, ParentDir(p));
      var written := WriteFile(disk, p, Utf8Encode(content));
      if written.Err? {
        return Err(written.error);
      }
      disk := written.value;
      r := Ok(());
    }

    method CreateNote(path: string) returns (r: Result<(), Failure>)
      modifies this
      ensures Outcome(r, disk) == CreateNoteOutcome(old(disk), dataDir, path)
    {
      disk := EnsureDir(disk, dataDir);
      var p := NoteFile(dataDir, path);
      if p in disk {
        return Err(AlreadyExists);
      }
      disk := CreateDirAllIgnored(disk, ParentDir(p));
      var written := WriteFile(disk, p, Utf8Encode("# "));
      if written.Err? {
        return Err(written.error);
      }
      disk := written.value;
      r := Ok(());
    }

    method CreateFolder(path: string) returns (r: Result<(), Failure>)
      modifies this
      ensures Outcome(r, disk) == CreateFolderOutcome(old(disk), dataDir, path)
    {
      disk := EnsureDir(disk, dataDir);
      var made := CreateDirAll(disk, PathJoin(dataDir, path));
      if made.Err? {
        return Err(made.error);
      }
      disk := made.value;
      r := Ok(());
    }

    /** `delete_item`, with the clock reading `now` in seconds. */
    method DeleteItem(path: string, isDir: bool, now: nat) returns (r: Result<(), Failure>)
      modifies this
      ensures Outcome(r, disk) == DeleteItemOutcome(old(disk), dataDir, path, isDir, now)
    {
      disk := EnsureDir(disk, dataDir);
      disk := EnsureDir(disk, TrashDir(dataDir));
      var src := ItemPath(dataDir, path, isDir);
      if src in disk {
        var name := TrashName(src, isDir, now);
        if name.None? {
          return Err(Panicked);
        }
        var moved := Rename(disk, src, PathJoin(TrashDir(dataDir), name.value));
        if moved.Err? {
          return Err(moved.error);
        }
        disk := moved.value;
      }
      r := Ok(());
    }

    method RestoreTrashItem(fileName: string) returns (r: Result<(), Failure>)
      modifies this
      ensures Outcome(r, disk) == RestoreTrashItemOutcome(old(disk), dataDir, fileName)
    {
      disk := EnsureDir(disk, dataDir);
      disk := EnsureDir(disk, TrashDir(dataDir));
      var src := PathJoin(TrashDir(dataDir), fileName);
      if src !in disk {
        return Err(FileMissing);
      }
      var newName := RestoreName(fileName);
      var target := PathJoin(dataDir, newName);
      var finalTarget := if target in disk then PathJoin(dataDir, "restored_" + newName) else target;
      var moved := Rename(disk, src, finalTarget);
      if moved.Err? {
        return Err(moved.error);
      }
      disk := moved.value;
      r := Ok(());
    }

    method RenameItem(oldPath: string, newPath: string, isDir: bool) returns (r: Result<(), Failure>)
      modifies this
      ensures Outcome(r, disk) == RenameItemOutcome(old(disk), dataDir, oldPath, newPath, isDir)
    {
      disk := EnsureDir(disk, dataDir);
      disk := EnsureDir(disk, AssetsRoot(dataDir));
      var oldFull := ItemPath(dataDir, oldPath, isDir);
      var newFull := ItemPath(dataDir, newPath, isDir);
      disk := CreateDirAllIgnored(disk, ParentDir(newFull));
      var moved := Rename(disk, oldFull, newFull);
      if moved.Err? {
        return Err(moved.error);
      }
      disk := moved.value;
      var oldAsset := PathJoin(AssetsRoot(dataDir), oldPath);
      var newAsset := PathJoin(AssetsRoot(dataDir), newPath);
      if oldAsset in disk {
        disk := CreateDirAllIgnored(disk, ParentDir(newAsset));
        var assetsMoved := Rename(disk, oldAsset, newAsset);
        if assetsMoved.Ok? {
          disk := assetsMoved.value;
        }
      }
      r := Ok(());
    }

    method SaveImage(fileName: string, payload: seq<byte>, notePath: string) returns (r: Result<string, Failure>)
      modifies this
      ensures Outcome(r, disk) == SaveImageOutcome(old(disk), dataDir, fileName, payload, notePath)
    {
      disk := EnsureDir(disk, dataDir);
      disk := EnsureDir(disk, AssetsRoot(dataDir));
      var targetDir := PathJoin(AssetsRoot(dataDir), notePath);
      if targetDir !in disk {
        var made := CreateDirAll(disk, targetDir);
        if made.Err? {
          return Err(made.error);
        }
        disk := made.value;
      }
      var p := PathJoin(targetDir, fileName);
      var written := WriteFile(disk, p, payload);
      if written.Err? {
        return Err(written.error);
      }
      disk := written.value;
      r := Ok(p);
    }
  }
}
