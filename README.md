# BoringApps in Dafny

This project models the logic inside three small desktop and mini-program
applications and the two release scripts that come with them, and proves
properties of that model.

**The note application** (No.1) has a Tauri back end and a BlockNote editor.
Notes are Markdown files under a data directory. Images live under
`assets/<note>`, and deleted items go to `.trash` with a timestamped name.

- `note_codec.dfy` models the editor side:
  - saving turns the block document into Markdown, with ordinary blocks going through the editor's transcoder and code and LaTeX blocks through fixed templates;
  - loading hides code fences and `$$` formulas behind `@@…_ID_n@@` placeholder tokens, parses the rest, and swaps the placeholders back;
  - a third part collects the asset URLs a document refers to.
- `note_session.dfy` models the session as a class. It holds the open note, the document, the dirty and loading flags and the baseline set of asset URLs. Its methods are edit, save, load, upload and delete, and the module also holds the tree search filter.
- `note_store.dfy` models the Rust commands over a file system held as a map from paths to entries (`file_system.dfy`). The commands are:
  - listing the tree;
  - loading, saving and creating notes and folders;
  - moving items to the trash and restoring them;
  - renaming a note together with its asset folder;
  - saving an upload;
  - resolving and deleting asset URLs.
- `encoding.dfy` holds the text codecs these rely on:
  - UTF-8;
  - `encodeURIComponent` and `decodeURIComponent`, from section 19.2.6 of ECMA-262;
  - Rust's `percent_decode_str(..).decode_utf8()`.

**The decision wheel** (No.2) is a mini-program page, modelled in `wheel.dfy`.
The user keeps themes of weighted items and spins to draw one item. Each draw
is recorded in a history that is newest first and capped at 500, and
per-theme statistics count how often each item was drawn.

**The attendance application** (No.3) has two parts:

- `attendance_db.dfy` models the SQLite tables of employees, punch records (unique per employee and day) and settings, as a class with the database functions as methods.
- `attendance_app.dfy` models the front end's pure computations: date ranges, per-employee statistics, the local update after a retroactive punch, the CSV export, the search filters and sorts, custom-field editing and the local punch flip.

**The version scripts** are modelled in two files, with `json_value.dfy`
holding the JSON values they read and write:

- `version_sync.dfy` models the No.1 script that checks an `x.y.z` argument and writes it to package.json, tauri.conf.json and the first `version = "…"` line of Cargo.toml.
- `version_bump.dfy` models the No.3 script that raises the patch number and writes the new version to package.json and to the Tauri config.

Shared pieces sit in `common.dfy` and `sorting.dfy`:

- `common.dfy` holds `Option`/`Result`, JavaScript whitespace and `trim`, ASCII lower-casing, substring search, decimal text and `filter`.
- `sorting.dfy` holds a stable insertion sort by a total preorder, proved sorted, a permutation and first-minimum-first.

Several things enter the model as parameters:

- the clock: the upload and trash timestamps, `today` and `now`;
- the random draw;
- BlockNote's Markdown transcoder;
- the zh-CN name collation;
- the date formatter.

## Model

| member | source | states |
|---|---|---|
| NoteCodec.DecodeOrRawOfEncoded | No.1/src/App.tsx:334-343 | decoding a prop that the editor percent-encoded gives back the text, so the raw-prop fallback is never taken for such props |
| NoteCodec.SerializeDocument | No.1/src/App.tsx:329-349 | the save loop (buffer, flush before each custom block, final flush) computes exactly `Serialize` of the document |
| NoteCodec.SaveFromStandardRun | No.1/src/App.tsx:331-347 | a run of ordinary blocks only grows the pending buffer and emits nothing until the next flush |
| NoteCodec.SerializeStandardOnly | No.1/src/App.tsx:347-349 | a document of ordinary blocks is emitted by one transcoder call, and an empty one as the empty string |
| NoteCodec.SerializeSplit | No.1/src/App.tsx:331-349 | around any custom block, the output is the output of the blocks before it, then its template, then the output of the blocks after it, so blocks appear in document order |
| NoteCodec.SerializeSingle | No.1/src/App.tsx:332-345 | a lone custom block is emitted as exactly its template |
| NoteCodec.SaveCodeBlock | No.1/src/App.tsx:338-345 | a code block is written as ``\n```<language>\n<decoded text>\n```\n`` |
| NoteCodec.SaveLatex | No.1/src/App.tsx:332-336 | a LaTeX block is written as `\n$$\n<decoded text>\n$$\n` |
| NoteCodec.AssetUrlsAppend | No.1/src/App.tsx:274-281 | the URL set of two block lists is the union of their URL sets |
| NoteCodec.AssetUrlsAreTreeUrls | No.1/src/App.tsx:274-281 | the recursive URL collection equals the set of non-empty `url` props of every block of the flattened tree, children included |
| NoteCodec.CollectAssetUrls | No.1/src/App.tsx:274-281 | the loop that adds each block's URL and its children's URLs returns exactly `AssetUrls` |
| NoteCodec.FenceLoopMatch | No.1/src/App.tsx:369-373 | a matched fence is replaced by the next code token and recorded with its language (`text` when empty) and trimmed body |
| NoteCodec.ReplaceFences | No.1/src/App.tsx:369-373 | the left-to-right replace loop for code fences computes exactly the lazy-match scanner `FencePass` |
| NoteCodec.ReplaceFormulas | No.1/src/App.tsx:376-380 | the replace loop for `$$` formulas computes exactly the scanner `FormulaPass` |
| NoteCodec.ExtractPlaceholders | No.1/src/App.tsx:364-380 | fences are replaced first and formulas second on the result, drawing from one counter |
| NoteCodec.FencePassNumbered | No.1/src/App.tsx:369-373 | the fence pass numbers its placeholders `counter, counter+1, …`, all code, each with a trimmed body and a non-empty language, and leaves the counter just past them |
| NoteCodec.FormulaPassNumbered | No.1/src/App.tsx:376-380 | the formula pass numbers its placeholders consecutively from the counter, all LaTeX, each with a trimmed body |
| NoteCodec.ExtractKeysDistinct | No.1/src/App.tsx:364-380 | all placeholder tokens of one load are pairwise distinct |
| NoteCodec.ExtractWellFormed | No.1/src/App.tsx:371-378 | every stored body is trimmed and every stored fence language is non-empty |
| NoteCodec.TokenInjective | No.1/src/App.tsx:370-377 | equal tokens have the same number and the same kind |
| NoteCodec.FencePassPlain | No.1/src/App.tsx:369 | text without a backtick fence passes through the fence stage unchanged |
| NoteCodec.FormulaPassPlain | No.1/src/App.tsx:376 | text without `$$\n` passes through the formula stage unchanged |
| NoteCodec.LastKeyIndex | No.1/src/App.tsx:371-391 | finds the last entry under a token and no later one, so a token set twice reads back its last value as `Map.set` leaves it |
| NoteCodec.Restore | No.1/src/App.tsx:386-411 | restoring maps each parsed block to one block, keeping the count |
| NoteCodec.RestorePlaceholder | No.1/src/App.tsx:388-407 | a paragraph whose single inline item trims to a recorded token becomes that token's LaTeX or code block, with `text` the encoded body (and the language for code), and the prop decodes back to the body |
| NoteCodec.RestoreKeepsOthers | No.1/src/App.tsx:388-410 | every other block passes through unchanged |
| NoteCodec.EditorBlocks | No.1/src/App.tsx:413 | an empty result becomes a single empty paragraph, and a non-empty result is kept as it is |
| NoteCodec.CodeTextFence | No.1/src/App.tsx:345-369 | in a saved code block, the fence scanner finds the language and a body that trims to the saved text, and stops at the closing fence |
| NoteCodec.CodeTextExtract | No.1/src/App.tsx:345-380 | loading a saved code block leaves one code token and stores the language and text, even when the text holds `$$` lines, since fences go first |
| NoteCodec.LatexTextFormula | No.1/src/App.tsx:336-376 | in a saved LaTeX block the formula scanner finds exactly the saved text |
| NoteCodec.LatexTextExtract | No.1/src/App.tsx:336-380 | loading a saved LaTeX block leaves one LaTeX token and stores the text |
| NoteCodec.LoadSingleToken | No.1/src/App.tsx:383-411 | a document that parses to the single token paragraph is restored to that token's block |
| NoteCodec.CodeBlockRoundTrip | No.1/src/App.tsx:329-411 | saving a document of one code block and loading the Markdown gives the same document back, for a trimmed text without a closing fence and a non-empty language without whitespace |
| NoteCodec.LatexRoundTrip | No.1/src/App.tsx:329-411 | saving a document of one LaTeX block and loading it gives the same document back, for a trimmed text without a fence or a `\n$$` |
| NoteSession.DeleteAll | No.1/src/App.tsx:326-327 | deleting the dropped URLs one by one removes each one's file whatever the others do, and leaves every other file as it was |
| NoteSession.DeleteAllSnoc | No.1/src/App.tsx:327 | the deletions run in sequence, each on the disk the previous one left |
| NoteSession.Session.DeleteUrls | No.1/src/App.tsx:326-327 | every URL of the set is attempted exactly once, and the disk is the result of those deletions |
| NoteSession.FilterNode | No.1/src/App.tsx:426-428 | a kept node keeps its name, path and kind, and a kept file is returned unchanged |
| NoteSession.FilterNodes | No.1/src/App.tsx:424-430 | an empty term returns the tree unchanged, and filtering never lengthens a level |
| NoteSession.FilterNodeSurvives | No.1/src/App.tsx:424-430 | a node is kept iff its name matches case-insensitively or it is a folder with a surviving node inside |
| NoteSession.FilterForestEmpty | No.1/src/App.tsx:427-429 | a filtered level is empty iff none of its nodes survives |
| NoteSession.FilterNodeIsPruned | No.1/src/App.tsx:424-430 | the filter equals the reference pruning: surviving nodes, each folder with only its surviving children |
| NoteSession.FilterForestIsPruned | No.1/src/App.tsx:426-429 | filtering a level equals pruning it, order kept |
| NoteSession.FilterFolder | No.1/src/App.tsx:427 | a folder is kept iff its name matches or some filtered child remains, and it keeps exactly the filtered children |
| NoteSession.ClosesAsWrittenTooMuch | No.1/src/App.tsx:437 | the check as written closes the open note `a/b` when the note `a` is trashed, and the open note `a` when the folder `a` is trashed, though neither file moves |
| NoteSession.ClosesIffTrashed | No.1/src/App.tsx:437 | the corrected check closes the open note exactly when its file is trashed: only notes inside the trashed item are closed, every note below a trashed folder is closed, and a trashed note closes a top-level open note only when it is that note |
| NoteSession.EditorBlocksUrls | No.1/src/App.tsx:413-414 | the placeholder paragraph adds no URL, so the loaded baseline is the URL set of the processed blocks |
| NoteSession.SavedDropsAssets | No.1/src/App.tsx:326-351 | after a save, no asset file of a dropped URL remains |
| NoteSession.Session.Edit | No.1/src/App.tsx:297-303 | an edit marks the note dirty only when a note is open and none is loading, and changes nothing else |
| NoteSession.Session.FinishLoading | No.1/src/App.tsx:417 | the timer callback clears the loading flag only |
| NoteSession.Session.Save | No.1/src/App.tsx:319-355 | with no note open nothing happens. Otherwise the deleted URLs are exactly the baseline minus the current URLs, and the note file gets the serialized document. The baseline becomes the current URLs and the dirty flag clears only when the save succeeds |
| NoteSession.Session.Load | No.1/src/App.tsx:358-418 | a dirty note is saved first: its dropped asset URLs are deleted and its file written, as `Save` does. The note is then read from the disk that save left (the untouched disk for a clean note), and the read result and final disk are `load_note`'s on that disk. On success the note becomes current and clean, and the document is the restored blocks with the baseline as their URLs. On failure the document and note stay |
| NoteSession.Session.Upload | No.1/src/App.tsx:283-296 | with no note open nothing is stored. Otherwise the file is saved under the note's asset folder, and on success the URL is returned and added to the baseline |
| NoteSession.Session.Delete | No.1/src/App.tsx:437 | the item is trashed as `delete_item` does, and the session is reset (no note, clean, empty document and baseline) exactly when the open note is the item's path or lies below it, whether the item is a note or a folder; otherwise the session is unchanged |
| NoteSession.Session.DeleteClosingTrashed | No.1/src/App.tsx:437 | the corrected `handleDelete`: the item is trashed as `delete_item` does, and the session is reset exactly when the open note's file is the trashed note or lies in the trashed folder; otherwise the session is unchanged |
| NoteStore.FileNameOfJoin | No.1/src-tauri/src/lib.rs:228 | the file name of `dir/name` is `name` |
| NoteStore.SplitExtension | No.1/src-tauri/src/lib.rs:228-232 | splits at the last dot into a non-empty stem and a dot-free extension, or gives no extension |
| NoteStore.SplitNoteName | No.1/src-tauri/src/lib.rs:228-232 | `<c>.md` has stem `c` and extension `md` |
| NoteStore.TrashNameOfNote | No.1/src-tauri/src/lib.rs:227-234 | a note is trashed as `<stem>_<seconds>.<extension>` |
| NoteStore.TrashNameOfFolder | No.1/src-tauri/src/lib.rs:227-234 | a folder is trashed as `<stem>_<seconds>` |
| NoteStore.RestoreStamp | No.1/src-tauri/src/lib.rs:346-356 | restoring cuts the name at its last `_` and keeps the suffix from the first `.` after it, so a stamped name gives back the stem and extension |
| NoteStore.NoteTrashRoundTrip | No.1/src-tauri/src/lib.rs:227-356 | for a note `c`, the trash name is `c_<seconds>.md` and restoring it gives `c.md` |
| NoteStore.FolderTrashRoundTrip | No.1/src-tauri/src/lib.rs:227-356 | for a folder name without dots, trashing and restoring give the name back |
| NoteStore.DottedFolderLosesSuffix | No.1/src-tauri/src/lib.rs:228-356 | a folder named `v1.2` is trashed as `v1_<seconds>` and restored as `v1` |
| NoteStore.StripAssetPrefix | No.1/src-tauri/src/lib.rs:47-59 | strips the first prefix of the list the URL starts with, and only that one; with none it keeps the URL |
| NoteStore.StripAssetPrefixLoop | No.1/src-tauri/src/lib.rs:53-59 | the prefix loop with its `break` computes exactly `StripAssetPrefix` |
| NoteStore.ParseAssetUrl | No.1/src-tauri/src/lib.rs:46-67 | `parse_asset_url` is prefix stripping followed by lenient percent-decoding and strict UTF-8 decoding |
| NoteStore.AssetPath | No.1/src-tauri/src/lib.rs:61-64 | the only failure is invalid UTF-8 |
| NoteStore.AssetPathOfConverted | No.1/src-tauri/src/lib.rs:46-67 | the path of a URL built by `convertFileSrc` is the original path, on Windows and elsewhere |
| NoteStore.AssetPathStripsOnce | No.1/src-tauri/src/lib.rs:54-58 | `asset://asset://x` loses one prefix only |
| NoteStore.AssetPathRejectsInvalidUtf8 | No.1/src-tauri/src/lib.rs:61-64 | `%FF` after a prefix is an error |
| NoteStore.NodeLeqTotalPreorder | No.1/src-tauri/src/lib.rs:172 | the listing order (folders first, then names ascending) is a total preorder |
| NoteStore.SortedListing | No.1/src-tauri/src/lib.rs:172-173 | sorting a sound and complete listing of a folder gives the listing: sorted, one node per shown entry, each node describing its entry |
| NoteStore.Store.ScanDir | No.1/src-tauri/src/lib.rs:127-174 | returns exactly the shown entries, with `assets`, `.trash`, dot-names and non-`.md` files left out. Notes show their stem and a path without `.md`, separators are `/`, each folder holds its own listing, and siblings are folders first, then names ascending |
| NoteStore.Store.ScanChildren | No.1/src-tauri/src/lib.rs:131-171 | the loop over the directory's entries keeps one node per shown entry and none for skipped ones |
| NoteStore.Store.ScanEntry | No.1/src-tauri/src/lib.rs:140-169 | the node for one shown entry: name, path and kind as listed, and for a folder its own listing |
| NoteStore.Store.GetFileTree | No.1/src-tauri/src/lib.rs:122-125 | the data directory is made when missing and the tree is its listing |
| NoteStore.OpenTarget | No.1/src-tauri/src/lib.rs:71-82 | an undecodable URL is an error as is, a missing path is a "file missing" error, and otherwise the decoded path is opened |
| NoteStore.Store.OpenFile | No.1/src-tauri/src/lib.rs:71-82 | computes `OpenTarget` |
| NoteStore.DeleteAssetOutcome | No.1/src-tauri/src/lib.rs:84-99 | succeeds iff the URL decodes. Only the decoded path is removed, and only if it is a regular file. Nothing outside the data directory is refused |
| NoteStore.Store.DeleteAsset | No.1/src-tauri/src/lib.rs:84-99 | changes the disk as `DeleteAssetOutcome` states |
| NoteStore.LoadNoteOutcome | No.1/src-tauri/src/lib.rs:176-183 | a missing note reads as empty text. An existing one reads as its UTF-8 text, and is an error if it is a folder or not UTF-8 |
| NoteStore.SaveNoteOutcome | No.1/src-tauri/src/lib.rs:185-193 | on success the note file holds the UTF-8 content, and no other existing entry changes |
| NoteStore.SaveThenLoad | No.1/src-tauri/src/lib.rs:176-193 | a note saved successfully loads back as the saved text |
| NoteStore.CreateNoteOutcome | No.1/src-tauri/src/lib.rs:195-206 | an existing note is an "already exists" error. A new one is written as `# `, and no existing entry changes |
| NoteStore.CreateFolderOutcome | No.1/src-tauri/src/lib.rs:208-213 | succeeds iff no file blocks the path, then the folder exists; nothing existing changes |
| NoteStore.DeleteItemOutcome | No.1/src-tauri/src/lib.rs:215-240 | a missing item is success with no change. A note whose file name has no extension (a path ending in `/`, which becomes `a/.md`) panics on `extension().unwrap()`. Otherwise the item moves to `.trash/<trash name>`, every entry below it moves along to the same place below the trash name, the source is gone and every other entry stays |
| NoteStore.RestoreTarget | No.1/src-tauri/src/lib.rs:358-363 | the restore target is `<data>/<restored name>`, or `<data>/restored_<name>` when that exists |
| NoteStore.RestoreTrashItemOutcome | No.1/src-tauri/src/lib.rs:338-367 | a missing trash entry is a "file missing" error; otherwise the entry moves to the restore target |
| NoteStore.NoteToTrash | No.1/src-tauri/src/lib.rs:215-240 | trashing a note moves its file to `.trash/<c>_<seconds>.md` |
| NoteStore.NoteFromTrash | No.1/src-tauri/src/lib.rs:338-367 | restoring `<c>_<seconds>.md` when `c.md` is free puts the file back at `c.md` |
| NoteStore.NoteTrashRestore | No.1/src-tauri/src/lib.rs:215-367 | trashing a note and then restoring its trash entry gives the note file back with the same content |
| NoteStore.MoveAssets | No.1/src-tauri/src/lib.rs:263-270 | with no asset folder for the old name nothing changes, and otherwise the folder is renamed with its errors ignored. Paths outside both asset folders keep their entries, and the only new paths are the new folder's parents and paths inside it. When the new folder is free, neither folder lies inside the other and no file blocks its parents, the whole old tree moves under the new name and nothing is left of it |
| NoteStore.RenameItemOutcome | No.1/src-tauri/src/lib.rs:242-272 | entries outside the old and new item and asset paths are unchanged |
| NoteStore.RenameItemMovesNote | No.1/src-tauri/src/lib.rs:243-261 | a successful rename of a top-level note (no `/` in either name) moves its file to the new name and leaves nothing at the old one |
| NoteStore.RenameItemMovesAssets | No.1/src-tauri/src/lib.rs:263-270 | when a top-level note had an asset folder and the new name had none, the folder moves with the note |
| NoteStore.RenameItemMovesItem | No.1/src-tauri/src/lib.rs:243-261 | for any old and new path of a note or folder (nested, moved into or out of a folder, as `handleMove` and `handleRename` build them) whose files lie apart from the assets folder: on success the old item existed, the new path holds what the old one held, everything inside a renamed folder reappears at the same place under the new path, and nothing is left at or below the old path |
| NoteStore.RenameItemMovesAssetFolder | No.1/src-tauri/src/lib.rs:263-270 | under the same conditions, an existing asset folder `assets/<old>` moves with its whole tree to `assets/<new>` when that is free, neither lies inside the other and no file blocks its parent folders, and nothing is left of the old one |
| NoteStore.SaveImageOutcome | No.1/src-tauri/src/lib.rs:274-284 | on success the returned path is `assets/<note>/<file>` and holds the payload; no other existing entry changes |
| NoteStore.SavedImageUrl | No.1/src-tauri/src/lib.rs:274-284 | the URL the front end builds from a saved image resolves back to the image, which holds the payload |
| NoteStore.Store.LoadNote | No.1/src-tauri/src/lib.rs:176-183 | result and disk are `LoadNoteOutcome` |
| NoteStore.Store.SaveNote | No.1/src-tauri/src/lib.rs:185-193 | result and disk are `SaveNoteOutcome` |
| NoteStore.Store.CreateNote | No.1/src-tauri/src/lib.rs:195-206 | result and disk are `CreateNoteOutcome` |
| NoteStore.Store.CreateFolder | No.1/src-tauri/src/lib.rs:208-213 | result and disk are `CreateFolderOutcome` |
| NoteStore.Store.DeleteItem | No.1/src-tauri/src/lib.rs:215-240 | result and disk are `DeleteItemOutcome` |
| NoteStore.Store.RestoreTrashItem | No.1/src-tauri/src/lib.rs:338-367 | result and disk are `RestoreTrashItemOutcome` |
| NoteStore.Store.RenameItem | No.1/src-tauri/src/lib.rs:242-272 | result and disk are `RenameItemOutcome` |
| NoteStore.Store.SaveImage | No.1/src-tauri/src/lib.rs:274-284 | result and disk are `SaveImageOutcome` |
| FileSystem.ParentOfJoin | No.1/src-tauri/src/lib.rs:188 | the parent of `dir/name` is `dir` |
| FileSystem.CreateDirAll | No.1/src-tauri/src/lib.rs:211 | fails iff a file lies on the path. On success every ancestor is a folder, nothing existing changes, and only ancestors are added |
| FileSystem.CreateDirAllIgnored | No.1/src-tauri/src/lib.rs:189 | with its error ignored, nothing existing changes, only ancestors are added, and the folders exist when no file blocks them |
| FileSystem.WriteFile | No.1/src-tauri/src/lib.rs:191 | succeeds iff the parent is a folder and the path is not one, and then replaces only that entry |
| FileSystem.ReadToString | No.1/src-tauri/src/lib.rs:182 | succeeds iff the entry is a file holding valid UTF-8, and returns its decoding |
| FileSystem.MoveTree | No.1/src-tauri/src/lib.rs:237 | everything under the source reappears under the destination with the same content, nothing remains under the source, and everything else is kept |
| FileSystem.Rename | No.1/src-tauri/src/lib.rs:237 | a missing source is "not found". A successful rename moves the subtree and keeps everything else, and a rename into a free spot of an existing folder succeeds. A successful move between two different paths never has one inside the other |
| FileSystem.RenameEntry | No.1/src-tauri/src/lib.rs:237 | after a successful rename the destination holds what the source held and the source is gone |
| Encoding.Utf8RoundTrip | No.1/src-tauri/src/lib.rs:182-191 | decoding the UTF-8 encoding of any text gives it back |
| Encoding.Utf8RejectsFF | No.1/src-tauri/src/lib.rs:62 | the byte `FF` is not valid UTF-8 |
| Encoding.UriRoundTrip | No.1/src/App.tsx:335-402 | `decodeURIComponent(encodeURIComponent(s)) == s` for every text |
| Encoding.DecodeUriPlain | No.1/src/App.tsx:335 | text without `%` decodes to itself |
| Encoding.DecodeUriRejectsBareEscape | No.1/src/App.tsx:335 | a lone `%` makes `decodeURIComponent` throw |
| Encoding.EncodedHasNoSlash | No.1/src/App.tsx:290 | an encoded component has no `/` |
| Encoding.PercentDecodeUtf8Plain | No.1/src-tauri/src/lib.rs:61-64 | a path without `%` decodes to itself |
| Encoding.PercentDecodeUtf8RejectsFF | No.1/src-tauri/src/lib.rs:61-64 | `%FF` fails UTF-8 decoding |
| Encoding.PercentDecodeLenientOfEncoded | No.1/src-tauri/src/lib.rs:61 | percent-decoding an encoded component gives the UTF-8 bytes of the text |
| Encoding.PercentDecodeUtf8OfEncoded | No.1/src-tauri/src/lib.rs:61-64 | the Rust decoder inverts `encodeURIComponent` |
| Common.TrimSlice | No.1/src/App.tsx:371 | `trim` returns a contiguous slice with no whitespace at either end and only whitespace cut away |
| Common.TrimNoop | No.1/src/App.tsx:371 | a text with no whitespace at its ends is its own trim |
| Common.NatToStringInjective | No.1/src-tauri/src/lib.rs:234 | different timestamps give different decimal texts |
| Common.FilterAppend | No.2/pages/index/index.js:151-153 | `filter` distributes over concatenation |
| Common.FilterDistinct | No.3/Attendance/src/App.tsx:322 | filtering a list without duplicates leaves none |
| Sorting.SortByPermutation | No.1/src-tauri/src/lib.rs:172 | sorting is a permutation |
| Sorting.SortBySorted | No.1/src-tauri/src/lib.rs:172 | sorting by a total preorder gives a sorted list |
| Sorting.SortByHead | No.2/pages/index/index.js:172-173 | the first element of the sorted list is the first minimal element of the input, as a stable sort leaves it |
| Sorting.LexTotal | No.1/src-tauri/src/lib.rs:172 | string order is total |
| Sorting.LexTransitive | No.1/src-tauri/src/lib.rs:172 | string order is transitive |
| Sorting.LexAntisymmetric | No.1/src-tauri/src/lib.rs:172 | string order is antisymmetric |
| DecisionWheel.DefaultThemes | No.2/pages/index/index.js:2-7 | three default themes |
| DecisionWheel.DefaultThemesOk | No.2/pages/index/index.js:2-7 | every default weight is at least 1 |
| DecisionWheel.NormalizeItem | No.2/pages/index/index.js:58-62 | a bare name becomes weight 1, a missing or sub-1 weight becomes 1, other weights are kept |
| DecisionWheel.NormalizeTheme | No.2/pages/index/index.js:56-63 | name, icon and verb are kept and every weight is at least 1 |
| DecisionWheel.NormalizeKeepsItems | No.2/pages/index/index.js:58-62 | normalization keeps the item count and each item's name |
| DecisionWheel.NormalizeStored | No.2/pages/index/index.js:56-63 | normalizing a stored theme whose weights are valid gives it back unchanged |
| DecisionWheel.PrefixGrows | No.2/pages/index/index.js:136-138 | with positive weights the running sum strictly increases |
| DecisionWheel.PickIndex | No.2/pages/index/index.js:136-139 | for `r` in `[0, total)`, the chosen item is the first whose running sum exceeds `r` |
| DecisionWheel.PickIndexIff | No.2/pages/index/index.js:131-141 | item `i` is chosen iff `r` lies in `[sum before i, sum through i)` |
| DecisionWheel.ChosenByWeight | No.2/pages/index/index.js:131-141 | each item is chosen for exactly `weight` many values of `r` |
| DecisionWheel.WeightedResult | No.2/pages/index/index.js:131-141 | the running-sum loop returns the name of `PickIndex` |
| DecisionWheel.RelevantItemsFilter | No.2/pages/index/index.js:166 | the theme's drawn items are the items of its records, in history order |
| DecisionWheel.FirstsSpec | No.2/pages/index/index.js:169-170 | the keys of the count table are the drawn names, each once, in first-seen order |
| DecisionWheel.TallyOfAt | No.2/pages/index/index.js:169-171 | each tallied name carries its number of draws |
| DecisionWheel.ComputeStats | No.2/pages/index/index.js:164-177 | the counting loop over a dictionary computes `Stats`, and the top pick is its first entry |
| DecisionWheel.StatsCounts | No.2/pages/index/index.js:166-172 | the stats list each drawn name once with its draw count, sorted by count descending, and are empty iff the theme has no history |
| DecisionWheel.StatsSum | No.2/pages/index/index.js:166-172 | the counts sum to the number of the theme's records |
| DecisionWheel.TopPickIsMostDrawn | No.2/pages/index/index.js:172-173 | the top pick is the name drawn most often, ties going to the one seen first in the history, and there is none iff there is no history |
| DecisionWheel.CountGeqPreorder | No.2/pages/index/index.js:172 | count-descending is a total preorder |
| DecisionWheel.RelevantAfterClear | No.2/pages/index/index.js:151-153 | after clearing, the cleared theme has no records and every other theme keeps its records in order |
| DecisionWheel.ClearedStats | No.2/pages/index/index.js:151-156 | after clearing, the cleared theme's stats are empty and other themes' stats are unchanged |
| DecisionWheel.Prepend | No.2/pages/index/index.js:125 | the new record comes first, the old history follows in order, and the length is capped at 500 |
| DecisionWheel.AddItemKeepsNamesDistinct | No.2/pages/index/index.js:199-202 | prepending a name not yet present keeps item names distinct |
| DecisionWheel.Wheel.constructor | No.2/pages/index/index.js:46-52 | loads the normalized stored themes (the defaults when none are stored), selects the first, and shows its stats |
| DecisionWheel.Wheel.Shared | No.2/pages/index/index.js:35-43 | a shared theme is shown normalized, as a guest, with its stats |
| DecisionWheel.Wheel.UpdateStats | No.2/pages/index/index.js:164-177 | the stats and top pick become those of the current theme; nothing else changes |
| DecisionWheel.Wheel.RefreshCurrentTheme | No.2/pages/index/index.js:83-89 | the current theme is the selected one, the display resets to `???`, and the stats follow |
| DecisionWheel.Wheel.SwitchTheme | No.2/pages/index/index.js:221 | selects the theme at the index and keeps the invariant; the running flag is kept and the display is reset to `???` |
| DecisionWheel.Wheel.Start | No.2/pages/index/index.js:103-113 | an empty theme does not start; otherwise the wheel runs |
| DecisionWheel.Wheel.Stop | No.2/pages/index/index.js:115-129 | stops, shows the weighted pick for `r`, and prepends its record to the capped history |
| DecisionWheel.Wheel.ClearHistory | No.2/pages/index/index.js:143-162 | removes exactly the current theme's records, keeping the rest in order, and empties the stats |
| DecisionWheel.Wheel.ChangeWeight | No.2/pages/index/index.js:179-192 | sets the item's weight to the tapped star count (1 to 5), leaving every other theme and item as it was; the running flag is kept and the display is reset to `???` |
| DecisionWheel.Wheel.AddItem | No.2/pages/index/index.js:194-204 | trims the input. Empty input and an existing name leave the themes unchanged; otherwise `{name, weight 1}` is prepended. The running flag is kept; the display is reset to `???` only when an item was added |
| DecisionWheel.Wheel.DeleteItem | No.2/pages/index/index.js:240-244 | removes exactly the item at the index; the running flag is kept and the display is reset to `???` |
| DecisionWheel.Wheel.AddNewTheme | No.2/pages/index/index.js:222-226 | appends a theme with the trimmed name, the icon ✨ and the trimmed verb or `选`, and an empty name adds nothing. The selection, running flag and display are kept |
| DecisionWheel.Wheel.DeleteTheme | No.2/pages/index/index.js:227-236 | removes the current theme, refills with the defaults when none is left, and selects the first; the running flag is kept and the display is reset to `???` |
| DecisionWheel.Wheel.SaveSharedTheme | No.2/pages/index/index.js:211-217 | a name already among the stored themes (or the defaults) changes nothing; otherwise the shared theme is appended and selected at the last index, leaving guest mode. The running flag and display are kept |
| AttendanceDb.Toggle | No.3/Attendance/src/db.ts:101-112 | today's record exists afterwards iff it did not before, and no other record changes |
| AttendanceDb.ToggleTwice | No.3/Attendance/src/db.ts:101-112 | toggling twice restores the set of (employee, day) keys, and the very records when none existed |
| AttendanceDb.ToggleKeepsUnique | No.3/Attendance/src/db.ts:30 | toggling keeps at most one record per employee and day |
| AttendanceDb.InsertOrIgnore | No.3/Attendance/src/db.ts:116-119 | the table only grows, by at most the one record, and then has the key |
| AttendanceDb.InsertOrIgnoreIdempotent | No.3/Attendance/src/db.ts:114-120 | a second back-fill changes nothing, and an existing record (and its timestamp) is never replaced |
| AttendanceDb.InsertOrIgnoreKeepsUnique | No.3/Attendance/src/db.ts:30 | back-filling keeps keys unique |
| AttendanceDb.PunchAllCovers | No.3/Attendance/src/db.ts:122-135 | afterwards every employee has a record for today, existing records are untouched, and new records are today's at `now` |
| AttendanceDb.PunchAllKeepsUnique | No.3/Attendance/src/db.ts:30 | punch-all keeps keys unique |
| AttendanceDb.InsertEach | No.3/Attendance/src/db.ts:129-134 | the per-employee insert loop computes `PunchAll` and keeps keys unique |
| AttendanceDb.RawRecords | No.3/Attendance/src/db.ts:137-143 | a (employee, day) pair is returned iff a record exists for it with start ≤ day ≤ end |
| AttendanceDb.RawRecordsDistinct | No.3/Attendance/src/db.ts:137-143 | with unique keys no pair is returned twice |
| AttendanceDb.Descending | No.3/Attendance/src/db.ts:76 | the employees in reverse table order |
| AttendanceDb.DescendingIds | No.3/Attendance/src/db.ts:76 | with ids ascending in the table, the listing is by id descending |
| AttendanceDb.Updated | No.3/Attendance/src/db.ts:59-66 | the employee with the id gets the new name and fields, every other employee is unchanged, and ids stay |
| AttendanceDb.MatchingAtMostOne | No.3/Attendance/src/db.ts:87-92 | the left join finds at most one record per employee for today, and none iff there is no record |
| AttendanceDb.StatusOfEach | No.3/Attendance/src/db.ts:83-99 | one row per employee, by id descending, punched iff today's record carries a punch time |
| AttendanceDb.PunchedOnIffRecord | No.3/Attendance/src/db.ts:97 | with non-zero timestamps, punched iff a record for today exists |
| AttendanceDb.FilterKeepsAscending | No.3/Attendance/src/db.ts:68-72 | deleting keeps the table's ids ascending |
| AttendanceDb.Store.GetCustomFields | No.3/Attendance/src/db.ts:41-45 | `[]` when no setting is stored, else the stored list |
| AttendanceDb.Store.SaveCustomFields | No.3/Attendance/src/db.ts:47-50 | the stored list becomes `fields`; the tables are unchanged |
| AttendanceDb.Store.AddEmployee | No.3/Attendance/src/db.ts:52-56 | appends the employee under the next id and returns true |
| AttendanceDb.Store.UpdateEmployee | No.3/Attendance/src/db.ts:59-66 | employees become `Updated`; records unchanged |
| AttendanceDb.Store.DeleteEmployee | No.3/Attendance/src/db.ts:68-72 | removes exactly the employee and every record of that id; all others are unchanged and in order |
| AttendanceDb.Store.GetEmployees | No.3/Attendance/src/db.ts:74-81 | the employees by id descending |
| AttendanceDb.Store.GetEmployeesWithStatus | No.3/Attendance/src/db.ts:83-99 | each employee, by id descending, marked punched iff punched today |
| AttendanceDb.Store.TogglePunch | No.3/Attendance/src/db.ts:101-112 | records become `Toggle` of the old records |
| AttendanceDb.Store.PunchSpecificDate | No.3/Attendance/src/db.ts:114-120 | records become `InsertOrIgnore` of the old records |
| AttendanceDb.Store.PunchAllEmployees | No.3/Attendance/src/db.ts:122-135 | records become `PunchAll` over all employee ids |
| AttendanceDb.Store.GetRawRecords | No.3/Attendance/src/db.ts:137-143 | exactly the punches in the inclusive range, each once |
| AttendanceApp.DayRange | No.3/Attendance/src/App.tsx:47-56 | the days from start to end inclusive, ascending with no gaps, and empty when start is after end |
| AttendanceApp.DatesInRange | No.3/Attendance/src/App.tsx:47-56 | the while loop returns exactly `DayRange` |
| AttendanceApp.DayRangeDistinct | No.3/Attendance/src/App.tsx:47-56 | no day appears twice |
| AttendanceApp.PunchedDates | No.3/Attendance/src/App.tsx:321 | a day is listed iff the employee has a punch on it |
| AttendanceApp.StatOf | No.3/Attendance/src/App.tsx:320-328 | present is the number of the employee's punches. Missed holds exactly the range days without a punch, in the range's order, and absent is its length |
| AttendanceApp.StatsOf | No.3/Attendance/src/App.tsx:314-320 | one row per employee, in the order `getEmployees` returns them (id descending) |
| AttendanceApp.StatsOfRows | No.3/Attendance/src/App.tsx:314-329 | every row of the statistics table counts present plus absent as the number of days in the range, and lists its missed days in ascending order |
| AttendanceApp.MissedDatesAscending | No.3/Attendance/src/App.tsx:322 | for a date range the missed days are strictly ascending |
| AttendanceApp.CalculateStats | No.3/Attendance/src/App.tsx:314-329 | one row per employee, in order |
| AttendanceApp.PresentPlusAbsent | No.3/Attendance/src/App.tsx:314-329 | present plus absent is the number of days in the range |
| AttendanceApp.Retro | No.3/Attendance/src/App.tsx:210-219 | the sum of present and absent is kept, the day leaves the missed list, and the other missed days stay |
| AttendanceApp.RetroMatchesRecompute | No.3/Attendance/src/App.tsx:205-219 | the local update after a retroactive punch equals the statistics recomputed from the database after the back-fill |
| AttendanceApp.MissedLosesDay | No.3/Attendance/src/App.tsx:217-322 | the back-filled day drops out of the missed list and the list shrinks by one |
| AttendanceApp.HeaderTexts | No.3/Attendance/src/App.tsx:128 | name, each custom field, then three fixed titles |
| AttendanceApp.RowCells | No.3/Attendance/src/App.tsx:130-138 | a row has as many cells as the header |
| AttendanceApp.ExportCsvAsWritten | No.3/Attendance/src/App.tsx:122-140 | export is refused iff there are no statistics |
| AttendanceApp.ExportCsv | No.3/Attendance/src/App.tsx:122-140 | export is refused iff there are no statistics, and the text begins with U+FEFF |
| AttendanceApp.ReadQuotedEscaped | No.3/Attendance/src/App.tsx:130-137 | a quoted field with its quotes doubled reads back as its text |
| AttendanceApp.ReadRecordLine | No.3/Attendance/src/App.tsx:138 | a comma-joined line of safe cells reads back as their texts |
| AttendanceApp.ReadCsvRows | No.3/Attendance/src/App.tsx:140 | lines joined with line feeds read back as the rows |
| AttendanceApp.ExportCsvRoundTrip | No.3/Attendance/src/App.tsx:128-140 | after the byte-order mark, the export reads back (section 2 of RFC 4180) as the header, then each employee's row in order |
| AttendanceApp.ExportAsWrittenBreaksOnQuote | No.3/Attendance/src/App.tsx:130-140 | as written, an employee named `a"b` makes the export unreadable as CSV |
| AttendanceApp.RowAsWrittenRejected | No.3/Attendance/src/App.tsx:133 | a row starting with the name `a"b`, quoted without doubling, is not valid CSV |
| AttendanceApp.ByNamePreorder | No.3/Attendance/src/App.tsx:111 | ordering by a total preorder on names is a total preorder on rows |
| AttendanceApp.FilteredEmployeesSpec | No.3/Attendance/src/App.tsx:106-112 | the view is a permutation of the employees whose names match case-insensitively, sorted by name |
| AttendanceApp.FilteredStatsSpec | No.3/Attendance/src/App.tsx:114-120 | the view is a permutation of the matching rows, absent count descending |
| AttendanceApp.EmptyTermMatches | No.3/Attendance/src/App.tsx:108-116 | an empty search term matches every name |
| AttendanceApp.AddField | No.3/Attendance/src/App.tsx:304-312 | refused iff the trimmed name is empty or the name is already present; otherwise appended at the end |
| AttendanceApp.RemoveField | No.3/Attendance/src/App.tsx:259 | every occurrence goes; every other field stays, as often as before and in its order |
| AttendanceApp.RemoveUndoesAdd | No.3/Attendance/src/App.tsx:259-307 | removing a just-added field restores the list exactly |
| AttendanceApp.AddFieldKeepsDistinct | No.3/Attendance/src/App.tsx:306-307 | adding keeps the field names distinct |
| AttendanceApp.FlipPunched | No.3/Attendance/src/App.tsx:167 | flips the flag only for rows with the id, and every other row is unchanged |
| AttendanceApp.FlipMatchesReload | No.3/Attendance/src/App.tsx:157-172 | the local flip equals the status list reloaded after the toggle |
| AttendanceApp.TogglePunchedOn | No.3/Attendance/src/db.ts:101-112 | a toggle flips today's punched state of that employee only |
| JsonValue.Get | No.1/sync-version.cjs:42 | a member is read iff the value is an object holding it |
| JsonValue.Put | No.1/sync-version.cjs:42 | an assignment fails iff the value is `null` |
| JsonValue.PutThenGet | No.1/sync-version.cjs:42 | an assigned member reads back |
| JsonValue.PutKeepsOthers | No.1/sync-version.cjs:42 | an assignment leaves every other member as it was |
| JsonValue.PutSameValue | No.3/Attendance/scripts/bump.js:22 | assigning a member its own value changes nothing |
| VersionSync.LeadingDigits | No.1/sync-version.cjs:14 | the longest run of digits at the start |
| VersionSync.NumbersFromSound | No.1/sync-version.cjs:14 | an accepted text starts with numbers separated by dots |
| VersionSync.NumbersFromComplete | No.1/sync-version.cjs:14 | a text starting with such numbers is accepted |
| VersionSync.HasVersionPrefixIff | No.1/sync-version.cjs:14-17 | the check accepts a text iff it starts with three digit runs separated by dots |
| VersionSync.SuffixAccepted | No.1/sync-version.cjs:14 | `1.2.3-beta` is accepted |
| VersionSync.TwoNumbersRejected | No.1/sync-version.cjs:14 | `1.2` is rejected |
| VersionSync.LineEndFirst | No.1/sync-version.cjs:60 | the match ends before the first line terminator |
| VersionSync.LastQuoteLast | No.1/sync-version.cjs:60 | the greedy `".*"` ends at the last quote of the line |
| VersionSync.MatchShape | No.1/sync-version.cjs:60 | a match starts a line with `version` and ends at the line's last quote |
| VersionSync.AssignmentShape | No.1/sync-version.cjs:60 | after `version`, a match is `\s*=\s*"` up to the last quote of the line |
| VersionSync.FirstMatch | No.1/sync-version.cjs:59-62 | finds the first position with a match, and with none there is none |
| VersionSync.ExpandLiteral | No.1/sync-version.cjs:61 | a replacement text without `$` is inserted literally |
| VersionSync.RewriteWithoutMatch | No.1/sync-version.cjs:59-62 | with no `version = "…"` line the content is unchanged |
| VersionSync.RewriteFirstMatch | No.1/sync-version.cjs:59-62 | only the first match becomes `version = "<v>"`, and the text before and after it is kept |
| VersionSync.SetVersion | No.1/sync-version.cjs:40-54 | a missing file stays missing |
| VersionSync.SyncCreatesNothing | No.1/sync-version.cjs:40-65 | each of the three files is written only if it exists |
| VersionSync.SyncWritesVersion | No.1/sync-version.cjs:40-65 | both JSON files get `version` set to exactly the argument with other keys kept, and Cargo.toml gets the first-line rewrite |
| VersionSync.SyncStopsAtMalformedPackage | No.1/sync-version.cjs:41-72 | a package.json that does not parse stops the sync before any write |
| VersionSync.SyncStopsAtMalformedConfig | No.1/sync-version.cjs:49-72 | a config that does not parse stops the sync with the config and Cargo.toml unwritten |
| VersionSync.Workspace.RunSync | No.1/sync-version.cjs:25-73 | the files become `Synced` of the old files |
| VersionSync.Workspace.Run | No.1/sync-version.cjs:6-75 | exits with 1 and writes nothing iff the argument is missing, empty or fails the check; otherwise syncs |
| VersionBump.Split | No.3/Attendance/scripts/bump.js:17 | `split` gives at least one piece, none holding the separator |
| VersionBump.SplitJoin | No.3/Attendance/scripts/bump.js:17-19 | joining the pieces gives the text back |
| VersionBump.JoinSplit | No.3/Attendance/scripts/bump.js:17-19 | splitting a join of separator-free pieces gives the pieces back |
| VersionBump.DigitsValueOf | No.3/Attendance/scripts/bump.js:17 | `Number` of a decimal text is its value |
| VersionBump.ToNumberOfIntText | No.3/Attendance/scripts/bump.js:17-19 | `Number` of an integer's text is the integer |
| VersionBump.Numbers | No.3/Attendance/scripts/bump.js:17 | `map(Number)` keeps the count and converts each piece |
| VersionBump.IncrementPatch | No.3/Attendance/scripts/bump.js:18 | the in-place increment computes `Incremented` |
| VersionBump.PatchBumped | No.3/Attendance/scripts/bump.js:17-19 | for three or more numeric parts, the third goes up by exactly one and the others and the count stay |
| VersionBump.ShortVersionGetsNaN | No.3/Attendance/scripts/bump.js:18-19 | a version with fewer than three parts ends in `.NaN` |
| VersionBump.VersionOf | No.3/Attendance/scripts/bump.js:17 | there is a version exactly when the package is an object whose `version` member is a string, and it is that string |
| VersionBump.NoPackageNoWrite | No.3/Attendance/scripts/bump.js:10-13 | with no package.json the script exits with 1 before writing |
| VersionBump.PackageGetsNewVersion | No.3/Attendance/scripts/bump.js:17-27 | package.json gets the new version with other keys kept, and with no config only package.json changes |
| VersionBump.ConfigGetsSameVersion | No.3/Attendance/scripts/bump.js:27-39 | the config gets the same new version, at `package.version` when that is set (Tauri v1) and at `version` otherwise |
| VersionBump.MalformedConfigAfterPackage | No.3/Attendance/scripts/bump.js:22-29 | a config that does not parse stops the script after package.json was written |
| VersionBump.Project.Bump | No.3/Attendance/scripts/bump.js:10-39 | the outcome and files are `Bumped` of the old files |

## Left out

- Rendering, styling, dialogs, toasts, the KaTeX and syntax-highlighting views and the resize handle of all three applications: they have no statable logic.
- BlockNote's Markdown transcoder: it is a pair of uninterpreted functions. The round-trip lemmas assume it parses `\n<token>\n` to the single paragraph holding the token.
- Block tree editing (`replaceBlocks`), React state timing, and the interleaving of asynchronous saves and loads: none of these is logic of the applications.
- The 300 ms timer that clears the loading flag: it is the separate method `FinishLoading`, called whenever the caller chooses.
- `isExitingRef`: it is never set in the shown code, so it is always false and not a field.
- `gc_unused_assets`, `get_trash_items`, `empty_trash` and `delete_trash_item`: they only walk or wipe directories, and the front end calls them outside the modelled flows.
- `canonicalize` in `delete_asset`: its result is never acted on, since the refusal is commented out.
- `open::that`: it is an operating-system call. `OpenFile` only resolves the path and checks that it exists.
- `get_data_dir`'s executable path: the data directory is the store's `dataDir`.
- File-system errors other than those named in `FileSystem.Failure`, permissions, and symbolic links.
- `read_dir` order: the listing is a set of entries, and `scan_dir`'s sort fixes the order.
- `to_string_lossy`: paths are Unicode text.
- NoteStore.RenameItemOutcome: where a rename puts the item and its asset folder is stated (in `RenameItemMovesItem` and `RenameItemMovesAssetFolder`) only for item paths apart from `<data>/assets`, neither inside it nor holding it; renaming into or out of the assets folder is not covered. When the asset move's own conditions fail, `fs::rename`'s ignored error leaves the outcome to the frame stated by `MoveAssets`.
- Path resolution: `FileSystem.PathJoin` joins with `/` and paths are taken as given. Rust's `Path::join` replacing the base with an absolute argument, and the resolution of `.`, `..` and repeated `/` by the operating system, are not modelled, so a typed name such as `/x`, `../x` or `a//b` reaches a different file in the program than in the model.
- The clock (`Date.getTime`, `SystemTime`, `dayjs().unix()`): it is a parameter.
- DecisionWheel.NormalizeTheme: a stored theme without `items` gets an empty item list, where `normalizeThemeItems` returns early and leaves the items undefined.
- `Math.random`: the draw is an integer `r` in `[0, total)`.
- The spinning animation, the accelerometer, vibration, `wx` storage and sharing in the wheel: they are device I/O.
- `percent` in the wheel statistics and the attendance-rate bar: they are floating point.
- JSON parsing of shared themes and of `extra_data`: the shared theme arrives already parsed as `RawTheme`.
- `DecisionWheel.Wheel.SaveSharedTheme` requires stored weights to be valid: themes written by the page always are, but a hand-edited store would not be normalized.
- `Object.keys` order in `updateStats`: the count table's keys are taken in first-insertion order, which JavaScript guarantees for non-index string keys. An item name that is an array index (such as `"1"`) would be ordered first by JavaScript, and the model does not capture that.
- dayjs dates: days are integers, the date formatter is a parameter, and daylight-saving effects on `getDatesInRange` are not modelled.
- `localeCompare(…, "zh-CN")`: it is a parameter, a total preorder on names.
- Case-insensitive search: `toLowerCase` is modelled on ASCII letters only.
- The `punch_time` value and `created_at`: only whether a timestamp is non-zero is modelled.
- SQL row order where a query has no `ORDER BY`: it is taken as insertion order.
- SQL errors and the connection singleton: these are library behaviour.
- The CSV reader used to state the export round trip takes a line feed as the record separator and no final line break, as the export writes them, and the byte-order mark is skipped before reading.
- Saving the CSV file: the save dialog and `writeTextFile` are I/O.
- `cargo clean` and the reads and writes of the version scripts: the files are values in `Files` and `Project`.
- JSON formatting and key order: objects are maps.
- JSON numbers: they are integers.
- `Number()` on forms other than an optional sign with digits, or empty or whitespace text: hexadecimal, exponents and `Infinity` are taken as `NaN`. Doubles above 2^53 are not modelled.
- VersionBump.ConfigGetsSameVersion: stated for object configs only; a config that parses to an array, string or number is not covered by the lemma.
- VersionSync.RewriteFirstMatch: stated for versions without `$`. `Expand` models the `$` patterns of `String.prototype.replace`, and `VersionSync.ExpandLiteral` covers the literal case.
- `convertFileSrc`: the Tauri 2 convention is modelled, that is `http://asset.localhost/` on Windows and `asset://localhost/` elsewhere, followed by the percent-encoded path.
- No.3/Attendance/src-tauri/src/main.rs is not part of this model: it only locates the database file and starts the app.

## Findings

| source | as written | input that shows it | evidently intended | confidence | as-written member | corrected member |
|---|---|---|---|---|---|---|
| No.1/src/App.tsx:437 | `handleDelete` closes the open note when it equals `path` or starts with `path + "/"`, ignoring `is_dir` | the open note `a/b` and the note `a` trashed; or the open note `a` and the folder `a` trashed | close the open note only when the trashed note is it, or when the trashed folder contains it | medium, not executed | NoteSession.ClosesAsWrittenTooMuch | NoteSession.ClosesIffTrashed |
| No.3/Attendance/src/App.tsx:128-140 | cells are wrapped in `"` without doubling the quotes inside, and the header is not quoted | an employee named `a"b` | valid CSV (section 2 of RFC 4180) that reads back as the table | medium, not executed | AttendanceApp.ExportAsWrittenBreaksOnQuote | AttendanceApp.ExportCsvRoundTrip |
