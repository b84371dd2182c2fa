/** The file system under the note app's Rust back end: a map from absolute
    paths (components separated by `/`) to files and directories, and the
    `std::fs` operations the back end calls, each with the outcome POSIX
    gives it. */
module FileSystem {
  import opened Common
  import opened Encoding

  datatype Entry = File(data: seq<byte>) | Dir

  type Disk = map<string, Entry>

  /** Reasons a back-end command fails. The `std::io` kinds come from the
      file system; the others are the back end's own messages. */
  datatype Failure =
    | NotFound            // ENOENT
    | NotADirectory       // ENOTDIR
    | IsADirectory        // EISDIR
    | DirectoryNotEmpty   // ENOTEMPTY
    | InvalidInput        // EINVAL: a directory moved into itself
    | InvalidData         // `read_to_string` on bytes that are not UTF-8
    | InvalidUtf8         // a percent-decoded asset path that is not UTF-8
    | FileMissing         // "文件不存在" (open_file, restore_trash_item)
    | AlreadyExists       // "文件已存在" (create_note)
    | Panicked            // an `unwrap` on `None`

  // ---------------------------------------------------------------------
  // Paths
  // ---------------------------------------------------------------------

  /** `Path::join` of a relative name. */
  function PathJoin(dir: string, name: string): string {
    dir + "/" + name
  }

  /** `k` lies strictly inside the directory `p`. */
  predicate Below(k: string, p: string) {
    |k| > |p| && k[..|p|] == p && k[|p|] == '/'
  }

  /** `k` is `p` or lies inside it. */
  predicate Within(k: string, p: string) {
    k == p || Below(k, p)
  }

  predicate IsDir(d: Disk, p: string) {
    p in d && d[p].Dir?
  }

  predicate IsFile(d: Disk, p: string) {
    p in d && d[p].File?
  }

  /** Some entry lies inside `p`. */
  predicate HasChildren(d: Disk, p: string) {
    exists k :: k in d && Below(k, p)
  }

  /** `Path::parent`: everything before the last separator. */
  function ParentDir(p: string): (r: string)
    ensures |r| < |p| || p == r == []
  {
    match FindLastChar(p, '/')
    case None => []
    case Some(i) => p[..i]
  }

  lemma ParentOfJoin(dir: string, name: string)
    requires '/' !in name
    ensures ParentDir(PathJoin(dir, name)) == dir
  {
    var p := PathJoin(dir, name);
    assert p[|dir|] == '/';
    assert p[|dir| + 1..] == name;
    assert p[..|dir|] == dir;
  }

  /** The directories `create_dir_all(p)` makes sure of, outermost first:
      every proper prefix of `p` ending before a separator, and `p`. */
  function Chain(p: string): set<string> {
    (set i | 0 < i < |p| && p[i] == '/' :: p[..i]) + {p}
  }

  /** Every directory of a chain is a prefix of its end. */
  lemma ChainPrefixes(p: string)
    ensures forall a :: a in Chain(p) ==> |a| <= |p| && p[..|a|] == a
  {
  }

  lemma ChainHasParent(dir: string, name: string)
    requires dir != [] && '/' !in name
    ensures dir in Chain(PathJoin(dir, name))
  {
    var p := PathJoin(dir, name);
    assert p[|dir|] == '/' && p[..|dir|] == dir;
  }

  /** Neither path is the other or lies inside it. */
  predicate Apart(p: string, q: string) {
    !Within(p, q) && !Within(q, p)
  }

  lemma {:induction false} WithinTransitive(a: string, b: string, c: string)
    requires Within(a, b) && Within(b, c)
    ensures Within(a, c)
  {
    if a != b && b != c {
      assert a[..|c|] == a[..|b|][..|c|] == b[..|c|];
      assert a[|c|] == a[..|b|][|c|] == b[|c|];
    }
  }

  /** Two folders holding one path are nested one in the other. */
  lemma {:induction false} WithinComparable(k: string, a: string, b: string)
    requires Within(k, a) && Within(k, b)
    ensures Within(a, b) || Within(b, a)
  {
    assert k[..|a|] == a && k[..|b|] == b;
    if |a| < |b| {
      assert b[..|a|] == k[..|b|][..|a|] == a;
      assert b[|a|] == k[|a|];
      assert Within(b, a);
    } else if |b| < |a| {
      assert a[..|b|] == k[..|a|][..|b|] == b;
      assert a[|b|] == k[|b|];
      assert Within(a, b);
    }
  }

  /** A path lies inside every folder of its chain. */
  lemma ChainWithin(p: string, a: string)
    requires a in Chain(p)
    ensures Within(p, a)
  {
    if a != p {
      var i :| 0 < i < |p| && p[i] == '/' && a == p[..i];
    }
  }

  /** A path with a separator lies inside its parent. */
  lemma BelowParent(p: string)
    requires '/' in p
    ensures Below(p, ParentDir(p))
  {
  }

  /** The directories `create_dir_all` makes for the parent of `p` all hold
      `p`. */
  lemma ParentChainWithin(p: string, a: string)
    requires '/' in p && a in Chain(ParentDir(p))
    ensures Within(p, a)
  {
    BelowParent(p);
    ChainWithin(ParentDir(p), a);
    WithinTransitive(p, ParentDir(p), a);
  }

  // ---------------------------------------------------------------------
  // std::fs operations
  // ---------------------------------------------------------------------

  /** `fs::create_dir_all(p)`: fails when a file stands anywhere on the
      chain; otherwise every directory of the chain exists afterwards and
      nothing else changes. */
  function CreateDirAll(d: Disk, p: string): (r: Result<Disk, Failure>)
    ensures r.Err? <==> exists a :: a in Chain(p) && IsFile(d, a)
    ensures r.Ok? ==> forall a :: a in Chain(p) ==> IsDir(r.value, a)
    ensures r.Ok? ==> forall k :: k in d ==> k in r.value && r.value[k] == d[k]
    ensures r.Ok? ==> forall k :: k in r.value ==> k in d || k in Chain(p)
  {
    if exists a :: a in Chain(p) && IsFile(d, a) then Err(NotADirectory)
    else Ok(d + map a | a in Chain(p) && a !in d :: Dir)
  }

  /** A `create_dir_all` whose error the caller discards (`let _ = ...`). */
  function CreateDirAllIgnored(d: Disk, p: string): (r: Disk)
    ensures forall k :: k in d ==> k in r && r[k] == d[k]
    ensures forall k :: k in r ==> k in d || k in Chain(p)
    ensures (forall a :: a in Chain(p) ==> !IsFile(d, a)) ==> forall a :: a in Chain(p) ==> IsDir(r, a)
  {
    match CreateDirAll(d, p)
    case Ok(d') => d'
    case Err(_) => d
  }

  /** `create_dir_all` only ever adds directories. */
  lemma CreateDirAllAddsDirs(d: Disk, p: string)
    ensures forall k :: k in CreateDirAllIgnored(d, p) && k !in d ==> CreateDirAllIgnored(d, p)[k] == Dir
  {
  }

  /** `fs::write(p, data)`: creates or truncates a file whose parent is a
      directory. */
  function WriteFile(d: Disk, p: string, data: seq<byte>): (r: Result<Disk, Failure>)
    ensures r.Ok? <==> IsDir(d, ParentDir(p)) && !IsDir(d, p)
    ensures r.Ok? ==> r.value == d[p := File(data)]
  {
    var parent := ParentDir(p);
    if parent !in d then Err(NotFound)
    else if d[parent].File? then Err(NotADirectory)
    else if IsDir(d, p) then Err(IsADirectory)
    else Ok(d[p := File(data)])
  }

  /** `fs::read_to_string(p)` on an existing path: the file's bytes read
      as UTF-8. */
  function ReadToString(d: Disk, p: string): (r: Result<string, Failure>)
    requires p in d
    ensures r.Ok? <==> d[p].File? && Utf8Decode(d[p].data).Some?
    ensures r.Ok? ==> Utf8Decode(d[p].data) == Some(r.value)
  {
    match d[p]
    case Dir => Err(IsADirectory)
    case File(data) =>
      match Utf8Decode(data)
      case None => Err(InvalidData)
      case Some(s) => Ok(s)
  }

  // ---------------------------------------------------------------------
  // Moving a subtree
  // ---------------------------------------------------------------------

  lemma WithinMoved(k: string, src: string, dst: string)
    requires Within(k, src)
    ensures Within(dst + k[|src|..], dst)
    ensures src + (dst + k[|src|..])[|dst|..] == k
  {
    var m := dst + k[|src|..];
    assert m[..|dst|] == dst;
    assert m[|dst|..] == k[|src|..];
    assert k[..|src|] == src;
    assert k == k[..|src|] + k[|src|..];
    if k != src {
      assert m[|dst|] == k[|src|];
    }
  }

  /** A moved key is never inside the source, given that neither path lies
      inside the other. */
  lemma MovedOutside(k: string, src: string, dst: string)
    requires Within(k, dst) && src != dst && !Below(dst, src) && !Below(src, dst)
    ensures !Within(k, src)
  {
  }

  /** The paths the entries inside `src` move to. */
  function MovedKeys(d: Disk, src: string, dst: string): set<string> {
    set j | j in d && Within(j, src) :: dst + j[|src|..]
  }

  lemma MovedKeyOrigin(d: Disk, src: string, dst: string, k: string)
    requires k in MovedKeys(d, src, dst)
    ensures Within(k, dst) && src + k[|dst|..] in d && Within(src + k[|dst|..], src)
  {
    var j :| j in d && Within(j, src) && k == dst + j[|src|..];
    WithinMoved(j, src, dst);
  }

  lemma MovedKeysOrigin(d: Disk, src: string, dst: string)
    ensures forall k :: k in MovedKeys(d, src, dst) ==> Within(k, dst) && src + k[|dst|..] in d
  {
    forall k | k in MovedKeys(d, src, dst)
      ensures Within(k, dst) && src + k[|dst|..] in d
    {
      MovedKeyOrigin(d, src, dst, k);
    }
  }

  /** The entries inside `src`, under their new paths. */
  function MovedEntries(d: Disk, src: string, dst: string): (m: Disk)
    ensures m.Keys == MovedKeys(d, src, dst)
    ensures forall k :: k in m ==> Within(k, dst) && src + k[|dst|..] in d && m[k] == d[src + k[|dst|..]]
  {
    MovedKeysOrigin(d, src, dst);
    map k | k in MovedKeys(d, src, dst) :: d[src + k[|dst|..]]
  }

  /** The entries of the tree at `src` re-rooted at `dst`; whatever stood
      at `dst` is replaced, everything else stays. */
  function MoveTree(d: Disk, src: string, dst: string): (r: Disk)
    requires src != dst && !Below(dst, src) && !Below(src, dst)
    ensures forall k :: k in d && Within(k, src) ==> dst + k[|src|..] in r && r[dst + k[|src|..]] == d[k]
    ensures forall k :: k in d && !Within(k, src) && !Within(k, dst) ==> k in r && r[k] == d[k]
    ensures forall k :: k in r ==> !Within(k, src)
    ensures forall k :: k in r ==> (k in d && !Within(k, dst)) || (Within(k, dst) && src + k[|dst|..] in d)
  {
    var kept := map k | k in d && !Within(k, src) && !Within(k, dst) :: d[k];
    var moved := MovedEntries(d, src, dst);
    MoveTreeFacts(d, src, dst, kept, moved);
    kept + moved
  }

  lemma MoveTreeFacts(d: Disk, src: string, dst: string, kept: Disk, moved: Disk)
    requires src != dst && !Below(dst, src) && !Below(src, dst)
    requires kept == map k | k in d && !Within(k, src) && !Within(k, dst) :: d[k]
    requires moved.Keys == MovedKeys(d, src, dst)
    requires forall k :: k in moved ==> Within(k, dst) && src + k[|dst|..] in d && moved[k] == d[src + k[|dst|..]]
    ensures forall k :: k in d && Within(k, src) ==> dst + k[|src|..] in kept + moved && (kept + moved)[dst + k[|src|..]] == d[k]
    ensures forall k :: k in d && !Within(k, src) && !Within(k, dst) ==> k in kept + moved && (kept + moved)[k] == d[k]
    ensures forall k :: k in kept + moved ==> !Within(k, src)
    ensures forall k :: k in kept + moved ==> (k in d && !Within(k, dst)) || (Within(k, dst) && src + k[|dst|..] in d)
  {
    var r := kept + moved;
    forall k | k in d && Within(k, src)
      ensures dst + k[|src|..] in r && r[dst + k[|src|..]] == d[k]
    {
      WithinMoved(k, src, dst);
      assert dst + k[|src|..] in moved;
    }
    forall k | k in d && !Within(k, src) && !Within(k, dst)
      ensures k in r && r[k] == d[k]
    {
      if k in moved {
        MovedKeyOrigin(d, src, dst, k);
      }
    }
    forall k | k in r
      ensures !Within(k, src)
      ensures (k in d && !Within(k, dst)) || (Within(k, dst) && src + k[|dst|..] in d)
    {
      if k in moved {
        MovedKeyOrigin(d, src, dst, k);
        MovedOutside(k, src, dst);
      }
    }
  }

  /** `fs::rename(src, dst)` with the outcomes of rename(2): a missing
      source, a destination whose parent is not a directory, a directory
      moved into itself, a file onto a directory, a directory onto a file
      or onto a non-empty directory all fail; otherwise the tree at `src`
      moves to `dst`, replacing what stood there. */
  function Rename(d: Disk, src: string, dst: string): (r: Result<Disk, Failure>)
    ensures r.Ok? ==> src in d
    ensures r.Ok? && src != dst ==> forall k :: k in d && Within(k, src) ==> dst + k[|src|..] in r.value && r.value[dst + k[|src|..]] == d[k]
    ensures r.Ok? && src != dst ==> forall k :: k in r.value ==> !Within(k, src)
    ensures r.Ok? ==> forall k :: k in d && !Within(k, src) && !Within(k, dst) ==> k in r.value && r.value[k] == d[k]
    ensures r.Ok? ==> forall k :: k in r.value && !Within(k, dst) ==> k in d
    ensures src in d && src != dst && IsDir(d, ParentDir(dst)) && dst !in d && !Below(dst, src) && !Below(src, dst) ==> r.Ok?
    ensures src !in d ==> r == Err(NotFound)
    ensures r.Ok? && src != dst ==> !Below(dst, src) && !Below(src, dst)
  {
    if src !in d then Err(NotFound)
    else if src == dst then Ok(d)
    else if ParentDir(dst) !in d then Err(NotFound)
    else if d[ParentDir(dst)].File? then Err(NotADirectory)
    else if Below(dst, src) then Err(InvalidInput)
    else if d[src].File? && IsDir(d, dst) then Err(IsADirectory)
    else if d[src].Dir? && IsFile(d, dst) then Err(NotADirectory)
    else if Below(src, dst) || (IsDir(d, dst) && HasChildren(d, dst)) then Err(DirectoryNotEmpty)
    else Ok(MoveTree(d, src, dst))
  }

  /** Renaming moves the entry at the source to the destination. */
  lemma RenameEntry(d: Disk, src: string, dst: string)
    requires Rename(d, src, dst).Ok?
    ensures var r := Rename(d, src, dst).value;
            dst in r && r[dst] == d[src] && (src != dst ==> src !in r)
  {
    if src != dst {
      assert Within(src, src) && dst + src[|src|..] == dst;
    }
  }
}
