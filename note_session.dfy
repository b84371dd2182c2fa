/** The note editor's session state (No.1/src/App.tsx): which note is open,
    whether it has unsaved edits, whether a load is in progress, and the
    baseline set of asset URLs the open note referenced when it was last
    loaded or saved. Saving deletes the assets that dropped out of the
    document since the baseline. The back end is the `Store` of the
    NoteStore module; the tree search filter is here as well. */
module NoteSession {
  import opened Common
  import opened Encoding
  import opened FileSystem
  import opened NoteCodec
  import opened NoteStore

  // ---------------------------------------------------------------------
  // Deleting the assets that dropped out of a note
  // ---------------------------------------------------------------------

  /** One `delete_asset` after another; a failing delete is only logged, so
      the disk after it is whatever the command left and the rest still
      run. */
  function DeleteAll(d: Disk, dataDir: string, urls: seq<string>): (r: Disk)
    ensures forall k :: k in r && r[k].File? ==> k in d && r[k] == d[k]
    ensures forall i :: 0 <= i < |urls| && AssetPath(urls[i]).Ok? ==> !IsFile(r, AssetPath(urls[i]).value)
    ensures forall k :: k in d && d[k].File? && (forall i :: 0 <= i < |urls| ==> AssetPath(urls[i]) != Ok(k)) ==>
              k in r && r[k] == d[k]
    decreases |urls|
  {
    if urls == [] then d
    else
      var d1 := DeleteAssetOutcome(d, dataDir, urls[0]).disk;
      EnsureDirAddsDirs(d, dataDir);
      var r := DeleteAll(d1, dataDir, urls[1..]);
      assert forall i :: 1 <= i < |urls| ==> urls[i] == urls[1..][i - 1];
      r
  }

  lemma {:induction false} DeleteAllSnoc(d: Disk, dataDir: string, urls: seq<string>, u: string)
    ensures DeleteAll(d, dataDir, urls + [u]) == DeleteAssetOutcome(DeleteAll(d, dataDir, urls), dataDir, u).disk
    decreases |urls|
  {
    if urls == [] {
      assert [u][1..] == [];
    } else {
      assert (urls + [u])[0] == urls[0] && (urls + [u])[1..] == urls[1..] + [u];
      DeleteAllSnoc(DeleteAssetOutcome(d, dataDir, urls[0]).disk, dataDir, urls[1..], u);
    }
  }

  /** The tree search box: `name.toLowerCase().includes(term.toLowerCase())`
      on a non-empty term. */
  function FilterNode(n: FileNode, term: string): (r: Option<FileNode>)
    ensures r.Some? ==> r.value.name == n.name && r.value.path == n.path && r.value.isDir == n.isDir
    ensures r.Some? && !n.isDir ==> r.value == n
    decreases n, 1
  {
    if n.isDir then
      var children := FilterForest(n.children, term);
      if |children| > 0 || MatchesTerm(n.name, term) then Some(n.(children := children)) else None
    else if MatchesTerm(n.name, term) then Some(n)
    else None
  }

  function FilterForest(nodes: seq<FileNode>, term: string): (r: seq<FileNode>)
    ensures |r| <= |nodes|
    decreases nodes, 0
  {
    if nodes == [] then []
    else
      match FilterNode(nodes[0], term)
      case Some(m) => [m] + FilterForest(nodes[1..], term)
      case None => FilterForest(nodes[1..], term)
  }

  /** `filterNodes`: an empty term shows the whole tree. */
  function FilterNodes(nodes: seq<FileNode>, term: string): (r: seq<FileNode>)
    ensures term == "" ==> r == nodes
    ensures |r| <= |nodes|
  {
    if term == "" then nodes else FilterForest(nodes, term)
  }

  /** The reference reading of the filter: a node is shown when its own
      name matches, or it is a folder with a shown node inside. */
  predicate Survives(n: FileNode, term: string)
    decreases n
  {
    MatchesTerm(n.name, term) || (n.isDir && exists i :: 0 <= i < |n.children| && Survives(n.children[i], term))
  }

  /** A node is kept exactly when it survives, and a forest filters to
      nothing exactly when none of its nodes survives. */
  lemma {:induction false} FilterNodeSurvives(n: FileNode, term: string)
    ensures FilterNode(n, term).Some? <==> Survives(n, term)
    decreases n, 1
  {
    if n.isDir {
      FilterForestEmpty(n.children, term);
    }
  }

  lemma {:induction false} FilterForestEmpty(nodes: seq<FileNode>, term: string)
    ensures FilterForest(nodes, term) != [] <==> exists i :: 0 <= i < |nodes| && Survives(nodes[i], term)
    decreases nodes, 0
  {
    if nodes != [] {
      FilterNodeSurvives(nodes[0], term);
      FilterForestEmpty(nodes[1..], term);
      if exists i :: 0 <= i < |nodes| && Survives(nodes[i], term) {
        var i :| 0 <= i < |nodes| && Survives(nodes[i], term);
        if i > 0 {
          assert nodes[1..][i - 1] == nodes[i];
        }
      }
      if exists i :: 0 <= i < |nodes[1..]| && Survives(nodes[1..][i], term) {
        var i :| 0 <= i < |nodes[1..]| && Survives(nodes[1..][i], term);
        assert nodes[i + 1] == nodes[1..][i];
      }
    }
  }

  /** The reference result: a surviving node with, for a folder, only its
      surviving contents, themselves pruned. */
  function Pruned(n: FileNode, term: string): FileNode
    decreases n, 1
  {
    if n.isDir then n.(children := PrunedForest(n.children, term)) else n
  }

  /** The surviving nodes in order, each pruned. */
  function PrunedForest(nodes: seq<FileNode>, term: string): seq<FileNode>
    decreases nodes, 0
  {
    if nodes == [] then []
    else if Survives(nodes[0], term) then [Pruned(nodes[0], term)] + PrunedForest(nodes[1..], term)
    else PrunedForest(nodes[1..], term)
  }

  /** The filter computes the reference result: a node is kept as its
      pruned form exactly when it survives, and a forest becomes its
      surviving nodes, in their order. */
  lemma {:induction false} FilterNodeIsPruned(n: FileNode, term: string)
    ensures FilterNode(n, term) == if Survives(n, term) then Some(Pruned(n, term)) else None
    decreases n, 1
  {
    FilterNodeSurvives(n, term);
    if n.isDir {
      FilterForestIsPruned(n.children, term);
    }
  }

  lemma {:induction false} FilterForestIsPruned(nodes: seq<FileNode>, term: string)
    ensures FilterForest(nodes, term) == PrunedForest(nodes, term)
    decreases nodes, 0
  {
    if nodes != [] {
      FilterNodeIsPruned(nodes[0], term);
      FilterForestIsPruned(nodes[1..], term);
    }
  }

  /** What happens to a folder: it keeps its name and only the filtered
      contents, and shows when its name matches or a node inside does. */
  lemma FilterFolder(n: FileNode, term: string)
    requires n.isDir
    ensures FilterNode(n, term).Some? <==> MatchesTerm(n.name, term) || FilterForest(n.children, term) != []
    ensures FilterNode(n, term).Some? ==> FilterNode(n, term).value.children == FilterForest(n.children, term)
  {
  }

  // ---------------------------------------------------------------------
  // Deleting a note or folder while a note is open
  // ---------------------------------------------------------------------

  /** The check `handleDelete` makes before trashing `path`: the open note
      is `path` or lies under `path + "/"`, whether `path` is a folder or a
      note. */
  predicate ClosesAsWritten(current: Option<string>, path: string) {
    current.Some? && (current.value == path || path + "/" <= current.value)
  }

  /** The check as meant: a note closes when it is the trashed note or lies
      inside the trashed folder. */
  predicate Closes(current: Option<string>, path: string, isDir: bool) {
    current.Some? && (if isDir then path + "/" <= current.value else current.value == path)
  }

  /** As written, trashing the note `a` also closes the open note `a/b`,
      whose file `a/b.md` the trash leaves where it is, and drops its
      unsaved edits; and trashing the folder `a` closes the open note `a`,
      whose file `a.md` lies beside the folder, not in it. */
  lemma ClosesAsWrittenTooMuch(dataDir: string)
    ensures ClosesAsWritten(Some("a/b"), "a")
    ensures !Within(NoteFile(dataDir, "a/b"), ItemPath(dataDir, "a", false))
    ensures ClosesAsWritten(Some("a"), "a")
    ensures !Within(NoteFile(dataDir, "a"), ItemPath(dataDir, "a", true))
  {
    var f := NoteFile(dataDir, "a/b");
    var g := NoteFile(dataDir, "a");
    assert f[|dataDir| + 1..] == "a/b.md";
    assert g[|dataDir| + 1..] == "a.md";
    assert f[|dataDir| + 2] == '/' && g[|dataDir| + 2] == '.';
    var h := ItemPath(dataDir, "a", true);
    assert h[|dataDir| + 1..] == "a";
    assert |g| > |h| && g[|h|] == '.';
  }

  /** The corrected check closes the open note only when its file is the
      trashed entry or lies inside it; it closes every note inside a
      trashed folder, and for a note only the note itself. */
  lemma ClosesIffTrashed(dataDir: string, current: string, path: string, isDir: bool)
    ensures Closes(Some(current), path, isDir) ==> Within(NoteFile(dataDir, current), ItemPath(dataDir, path, isDir))
    ensures isDir && Below(NoteFile(dataDir, current), ItemPath(dataDir, path, isDir)) ==> Closes(Some(current), path, isDir)
    ensures !isDir && '/' !in current && Within(NoteFile(dataDir, current), ItemPath(dataDir, path, isDir)) ==> current == path
  {
    if isDir {
      assert Below(NoteFile(dataDir, current), PathJoin(dataDir, path)) <==> path + "/" <= current by {
        BelowJoin(dataDir, current + ".md", path);
        SlashPrefixNote(current, path);
      }
    } else {
      NoteFileInFile(dataDir, current, path);
    }
  }

  /** Inside a common directory, one entry lies below another exactly when
      the other's name and a slash begin it. */
  lemma BelowJoin(d: string, a: string, b: string)
    ensures Below(PathJoin(d, a), PathJoin(d, b)) <==> b + "/" <= a
  {
    var f, p := PathJoin(d, a), PathJoin(d, b);
    assert f[|d| + 1..] == a;
    if b + "/" <= a {
      assert f[..|p|] == p by {
        assert f[|d| + 1..][..|b|] == a[..|b|] == b;
      }
      assert f[|p|] == a[|b|];
    }
    if Below(f, p) {
      assert a[..|b|] == f[..|p|][|d| + 1..];
      assert a[|b|] == f[|p|];
      assert (b + "/")[..|b|] == b;
    }
  }

  /** A folder prefix of a note's file name is a prefix of the note's
      path: the slash cannot fall in the `.md` extension. */
  lemma SlashPrefixNote(current: string, path: string)
    ensures path + "/" <= current + ".md" <==> path + "/" <= current
  {
    var t := current + ".md";
    if path + "/" <= t {
      assert t[|path|] == '/';
      assert |path| < |current|;
      assert t[..|path| + 1] == current[..|path| + 1];
    }
  }

  /** Two note files in one directory nest only when they are the same
      note, unless the first note's path has a slash. */
  lemma NoteFileInFile(dataDir: string, current: string, path: string)
    ensures '/' !in current && Within(NoteFile(dataDir, current), NoteFile(dataDir, path)) ==> current == path
  {
    var f := NoteFile(dataDir, current);
    var g := NoteFile(dataDir, path);
    var base := |dataDir| + 1;
    assert f[base..] == current + ".md";
    if '/' !in current && Within(f, g) {
      assert g[base..] == path + ".md";
      assert (current + ".md")[..|current|] == current;
      assert (path + ".md")[..|path|] == path;
    }
  }

  // ---------------------------------------------------------------------
  // The session
  // ---------------------------------------------------------------------

  /** `${Date.now()}_${file.name}`: the name an upload is stored under. */
  function UploadName(now: nat, fileName: string): (r: string)
  {
    NatToString(now) + "_" + fileName
  }

  class Session {
    /** The back end the commands are sent to. */
    const store: Store
    /** The editor's document. */
    var document: seq<Block>
    /** `currentFile`: the open note's path, without `.md`. */
    var currentFile: Option<string>
    /** `isDirtyRef`: the open note has edits not yet saved. */
    var dirty: bool
    /** `isLoadingRef`: a load is in progress (editor changes are its own). */
    var loading: bool
    /** `initialAssetUrls`: the asset URLs the open note referenced when it
        was last loaded or saved, plus those uploaded since. */
    var baseline: set<string>

    /** Unsaved edits belong to an open note. */
    predicate Valid()
      reads this
    {
      dirty ==> currentFile.Some?
    }

    constructor(store: Store)
      ensures this.store == store && Valid()
      ensures document == [EmptyParagraph()] && currentFile == None && !dirty && !loading && baseline == {}
    {
      this.store := store;
      document := [EmptyParagraph()];
      currentFile := None;
      dirty := false;
      loading := false;
      baseline := {};
    }

    /** The editor's change event (`onEditorChange`) after the document
        became `doc`: it marks the note dirty unless a load is under way or
        no note is open. */
    method Edit(doc: seq<Block>)
      requires Valid()
      modifies this
      ensures Valid()
      ensures document == doc
      ensures dirty == (old(dirty) || (!loading && currentFile.Some?))
      ensures currentFile == old(currentFile) && loading == old(loading) && baseline == old(baseline)
    {
      document := doc;
      if loading || currentFile.None? {
        return;
      }
      if !dirty {
        dirty := true;
      }
    }

    /** The timer that ends a load. */
    method FinishLoading()
      modifies this
      ensures !loading
      ensures document == old(document) && currentFile == old(currentFile) && dirty == old(dirty) && baseline == old(baseline)
    {
      loading := false;
    }

    /** The delete loop of `saveCurrentNote`: every URL is sent to
        `delete_asset` once, whatever the earlier ones returned. */
    method DeleteUrls(urls: set<string>) returns (attempted: seq<string>)
      modifies store
      ensures Distinct(attempted) && forall u :: u in attempted <==> u in urls
      ensures store.disk == DeleteAll(old(store.disk), store.dataDir, attempted)
    {
      attempted := [];
      var todo := urls;
      while todo != {}
        invariant todo <= urls
        invariant Distinct(attempted)
        invariant forall u :: u in attempted <==> u in urls && u !in todo
        invariant store.disk == DeleteAll(old(store.disk), store.dataDir, attempted)
        decreases |todo|
      {
        var u :| u in todo;
        DeleteAllSnoc(old(store.disk), store.dataDir, attempted, u);
        var ignored := store.DeleteAsset(u);
        attempted := attempted + [u];
        todo := todo - {u};
      }
    }

    /** `saveCurrentNote`: with a note open, deletes the assets in the
        baseline that the document no longer references, writes the
        serialized document, and only when the write succeeded takes the
        document's URLs as the new baseline and clears the dirty flag. */
    method Save(t: Transcoder) returns (deleted: seq<string>, saved: bool)
      requires Valid()
      modifies this, store
      ensures Valid()
      ensures document == old(document) && currentFile == old(currentFile) && loading == old(loading)
      ensures old(currentFile).None? ==>
                deleted == [] && !saved && baseline == old(baseline) && dirty == old(dirty) && store.disk == old(store.disk)
      ensures old(currentFile).Some? ==>
                && Distinct(deleted)
                && (forall u :: u in deleted <==> u in old(baseline) && u !in AssetUrls(old(document)))
                && var o := SaveNoteOutcome(DeleteAll(old(store.disk), store.dataDir, deleted), store.dataDir,
                                            old(currentFile).value, Serialize(t, old(document)));
                   saved == o.result.Ok? && store.disk == o.disk
      ensures baseline == (if saved then AssetUrls(old(document)) else old(baseline))
      ensures dirty == (old(dirty) && !saved)
    {
      if currentFile.None? {
        return [], false;
      }
      var file := currentFile.value;
      var current := CollectAssetUrls(document);
      deleted := DeleteUrls(baseline - current);
      var markdown := SerializeDocument(t, document);
      var written := store.SaveNote(file, markdown);
      saved := written.Ok?;
      if saved {
        baseline := current;
        dirty := false;
      }
    }

    /** `loadNote`: saves a dirty note first, then reads `path`; on success
        the editor shows the decoded blocks, the baseline is their URL set
        and the note is clean. The loading flag stays set until
        `FinishLoading`. */
    method Load(t: Transcoder, path: string) returns (saved: bool, loaded: Result<string, Failure>, ghost deleted: seq<string>)
      requires Valid()
      modifies this, store
      ensures Valid() && loading
      ensures saved ==> old(dirty) && old(currentFile).Some?
      ensures saved ==> var f := NoteFile(store.dataDir, old(currentFile).value);
                        f in store.disk && store.disk[f] == File(Utf8Encode(Serialize(t, old(document))))
      ensures !old(dirty) ==> !saved && deleted == []
      ensures old(dirty) ==>
                && old(currentFile).Some?
                && Distinct(deleted)
                && (forall u :: u in deleted <==> u in old(baseline) && u !in AssetUrls(old(document)))
      ensures var mid := if old(dirty) then SaveNoteOutcome(DeleteAll(old(store.disk), store.dataDir, deleted), store.dataDir,
                                                            old(currentFile).value, Serialize(t, old(document)))
                         else Outcome(Ok(()), old(store.disk));
              && saved == (old(dirty) && mid.result.Ok?)
              && Outcome(loaded, store.disk) == LoadNoteOutcome(mid.disk, store.dataDir, path)
      ensures loaded.Ok? ==>
                && currentFile == Some(path) && !dirty
                && document == EditorBlocks(LoadBlocks(t, loaded.value))
                && baseline == AssetUrls(document)
      ensures loaded.Err? ==>
                && currentFile == old(currentFile) && document == old(document)
                && baseline == (if saved then AssetUrls(old(document)) else old(baseline))
                && dirty == (old(dirty) && !saved)
    {
      saved := false;
      deleted := [];
      if dirty {
        var gone;
        gone, saved := Save(t);
        deleted := gone;
      }
      loading := true;
      loaded := store.LoadNote(path);
      if loaded.Ok? {
        var extraction := ExtractPlaceholders(loaded.value);
        var processed := Restore(extraction.entries, t.parse(extraction.text));
        document := EditorBlocks(processed);
        EditorBlocksUrls(processed);
        baseline := CollectAssetUrls(processed);
        currentFile := Some(path);
        dirty := false;
      }
    }

    /** `uploadFile`: with a note open, stores the file under the note's
        asset folder and adds its URL to the baseline. */
    method Upload(fileName: string, payload: seq<byte>, now: nat, windows: bool) returns (url: string)
      requires Valid()
      modifies this, store
      ensures Valid()
      ensures document == old(document) && currentFile == old(currentFile) && dirty == old(dirty) && loading == old(loading)
      ensures old(currentFile).None? ==> url == "" && baseline == old(baseline) && store.disk == old(store.disk)
      ensures old(currentFile).Some? ==>
                var o := SaveImageOutcome(old(store.disk), store.dataDir, UploadName(now, fileName), payload, old(currentFile).value);
                && store.disk == o.disk
                && (o.result.Ok? ==> url == ConvertFileSrc(o.result.value, windows) && baseline == old(baseline) + {url})
                && (o.result.Err? ==> url == "" && baseline == old(baseline))
    {
      if currentFile.None? {
        return "";
      }
      var stored := store.SaveImage(UploadName(now, fileName), payload, currentFile.value);
      if stored.Err? {
        return "";
      }
      url := ConvertFileSrc(stored.value, windows);
      baseline := baseline + {url};
    }

    /** `handleDelete` after confirmation, as written: closes the open note
        (discarding its unsaved edits) when its path is the item's path or
        lies below it, whether the item is a note or a folder, then trashes
        the item. */
    method Delete(path: string, isDir: bool, now: nat) returns (r: Result<(), Failure>)
      requires Valid()
      modifies this, store
      ensures Valid()
      ensures Outcome(r, store.disk) == DeleteItemOutcome(old(store.disk), store.dataDir, path, isDir, now)
      ensures ClosesAsWritten(old(currentFile), path) ==> currentFile == None && !dirty && document == [] && baseline == {}
      ensures !ClosesAsWritten(old(currentFile), path) ==>
                currentFile == old(currentFile) && dirty == old(dirty) && document == old(document) && baseline == old(baseline)
      ensures loading == old(loading)
    {
      if ClosesAsWritten(currentFile, path) {
        currentFile := None;
        dirty := false;
        document := [];
        baseline := {};
      }
      r := store.DeleteItem(path, isDir, now);
    }

    /** `handleDelete` with the check `is_dir` evidently calls for: the open
        note is closed only when its file is the one trashed or lies in the
        trashed folder (see `ClosesIffTrashed`). */
    method DeleteClosingTrashed(path: string, isDir: bool, now: nat) returns (r: Result<(), Failure>)
      requires Valid()
      modifies this, store
      ensures Valid()
      ensures Outcome(r, store.disk) == DeleteItemOutcome(old(store.disk), store.dataDir, path, isDir, now)
      ensures Closes(old(currentFile), path, isDir) ==> currentFile == None && !dirty && document == [] && baseline == {}
      ensures !Closes(old(currentFile), path, isDir) ==>
                currentFile == old(currentFile) && dirty == old(dirty) && document == old(document) && baseline == old(baseline)
      ensures loading == old(loading)
    {
      if Closes(currentFile, path, isDir) {
        currentFile := None;
        dirty := false;
        document := [];
        baseline := {};
      }
      r := store.DeleteItem(path, isDir, now);
    }
  }

  /** The empty paragraph shown for an empty note references no asset. */
  lemma EditorBlocksUrls(processed: seq<Block>)
    ensures AssetUrls(EditorBlocks(processed)) == AssetUrls(processed)
  {
    if processed == [] {
      assert [EmptyParagraph()][1..] == [];
    }
  }

  /** After a save, every asset dropped from the document has its file
      deleted, unless the note itself was written over it. */
  lemma SavedDropsAssets(d: Disk, dataDir: string, deleted: seq<string>, path: string, content: string, u: string)
    requires u in deleted && AssetPath(u).Ok? && AssetPath(u).value != NoteFile(dataDir, path)
    ensures !IsFile(SaveNoteOutcome(DeleteAll(d, dataDir, deleted), dataDir, path, content).disk, AssetPath(u).value)
  {
    var i :| 0 <= i < |deleted| && deleted[i] == u;
    var d1 := DeleteAll(d, dataDir, deleted);
    var p := AssetPath(u).value;
    var o := SaveNoteOutcome(d1, dataDir, path, content);
    EnsureDirAddsDirs(d1, dataDir);
    var d2 := EnsureDir(d1, dataDir);
    CreateDirAllAddsDirs(d2, ParentDir(NoteFile(dataDir, path)));
  }
}
