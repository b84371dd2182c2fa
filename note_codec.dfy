/** The note editor's document codec (No.1/src/App.tsx): the save loop that
    turns the editor's top-level blocks into markdown, the load pipeline
    that hides code fences and `$$` formulas behind placeholder tokens
    before the markdown transcoder runs and swaps them back afterwards, and
    the set of asset URLs a document references. */
module NoteCodec {
  import opened Common
  import opened Encoding

  /** An inline item of a block's content; only styled text has `text`. */
  datatype Inline = Text(text: string) | OtherInline

  /** A block of the editor's schema: the editor's own kinds (paragraph,
      heading, image, ...) are `Standard`; `latex` and `codeBlock` are the
      two custom kinds, whose `text` prop holds percent-encoded source. */
  datatype Block =
    | Standard(kind: string, props: map<string, string>, content: seq<Inline>, children: seq<Block>)
    | Latex(text: string, children: seq<Block>)
    | Code(text: string, language: string, children: seq<Block>)
  {
    predicate IsCustom() {
      !Standard?
    }
  }

  /** The editor's markdown transcoder (`blocksToMarkdownLossy`,
      `tryParseMarkdownToBlocks`), a foreign library: any pair of functions. */
  datatype Transcoder = Transcoder(toMarkdown: seq<Block> -> string, parse: string -> seq<Block>)

  function EmptyParagraph(): Block {
    Standard("paragraph", map[], [], [])
  }

  // ---------------------------------------------------------------------
  // Save
  // ---------------------------------------------------------------------

  /** `decodeURIComponent(text)`, or `text` itself when that throws. */
  function DecodeOrRaw(text: string): string {
    match DecodeUriComponent(text)
    case Some(d) => d
    case None => text
  }

  /** The text a custom block is saved as. */
  function Template(b: Block): (r: string)
    requires b.IsCustom()
  {
    match b
    case Latex(text, _) => "\n$$\n" + DecodeOrRaw(text) + "\n$$\n"
    case Code(text, language, _) => "\n```" + language + "\n" + DecodeOrRaw(text) + "\n```\n"
  }

  /** Pending standard blocks go through the transcoder, and only when
      there are any. */
  function Flush(t: Transcoder, buffer: seq<Block>): string {
    if |buffer| > 0 then t.toMarkdown(buffer) else ""
  }

  /** What the rest of the save loop appends, given the pending buffer and
      the blocks still to visit. */
  function SaveFrom(t: Transcoder, buffer: seq<Block>, rest: seq<Block>): string
    decreases |rest|
  {
    if rest == [] then Flush(t, buffer)
    else if rest[0].IsCustom() then Flush(t, buffer) + Template(rest[0]) + SaveFrom(t, [], rest[1..])
    else SaveFrom(t, buffer + [rest[0]], rest[1..])
  }

  /** The markdown a document is saved as. */
  function Serialize(t: Transcoder, doc: seq<Block>): string {
    SaveFrom(t, [], doc)
  }

  /** The save loop of `saveCurrentNote`: walks the blocks in order,
      buffering standard blocks and flushing the buffer before each custom
      block and once at the end. */
  method SerializeDocument(t: Transcoder, doc: seq<Block>) returns (markdown: string)
    ensures markdown == Serialize(t, doc)
  {
    markdown := "";
    var buffer: seq<Block> := [];
    var i := 0;
    while i < |doc|
      invariant 0 <= i <= |doc|
      invariant markdown + SaveFrom(t, buffer, doc[i..]) == Serialize(t, doc)
    {
      var block := doc[i];
      assert doc[i..][0] == block && doc[i..][1..] == doc[i + 1..];
      if block.IsCustom() {
        var piece := Flush(t, buffer) + Template(block);
        ghost var tail := SaveFrom(t, [], doc[i + 1..]);
        assert SaveFrom(t, buffer, doc[i..]) == piece + tail;
        assert markdown + (piece + tail) == (markdown + piece) + tail;
        markdown := markdown + piece;
        buffer := [];
      } else {
        assert SaveFrom(t, buffer, doc[i..]) == SaveFrom(t, buffer + [block], doc[i + 1..]);
        buffer := buffer + [block];
      }
      i := i + 1;
    }
    assert doc[i..] == [];
    markdown := markdown + Flush(t, buffer);
  }

  /** Standard blocks still buffered are emitted in one flush together with
      those that follow them up to the next custom block. */
  lemma {:induction false} SaveFromStandardRun(t: Transcoder, buffer: seq<Block>, run: seq<Block>, rest: seq<Block>)
    requires forall i :: 0 <= i < |run| ==> !run[i].IsCustom()
    ensures SaveFrom(t, buffer, run + rest) == SaveFrom(t, buffer + run, rest)
    decreases |run|
  {
    if run == [] {
      assert run + rest == rest && buffer + run == buffer;
    } else {
      assert (run + rest)[0] == run[0] && (run + rest)[1..] == run[1..] + rest;
      SaveFromStandardRun(t, buffer + [run[0]], run[1..], rest);
      assert buffer + [run[0]] + run[1..] == buffer + run;
    }
  }

  /** A document of standard blocks only is one transcoder call (none when
      it is empty). */
  lemma SerializeStandardOnly(t: Transcoder, doc: seq<Block>)
    requires forall i :: 0 <= i < |doc| ==> !doc[i].IsCustom()
    ensures Serialize(t, doc) == if doc == [] then "" else t.toMarkdown(doc)
  {
    SaveFromStandardRun(t, [], doc, []);
    assert doc + [] == doc && [] + doc == doc;
  }

  /** A custom block splits the save: everything before it is serialised
      (and flushed) first, then its template, then everything after it. */
  lemma SerializeSplit(t: Transcoder, before: seq<Block>, b: Block, after: seq<Block>)
    requires b.IsCustom()
    ensures Serialize(t, before + [b] + after) == Serialize(t, before) + Template(b) + Serialize(t, after)
  {
    SaveFromSplit(t, [], before, b, after);
  }

  lemma {:induction false} SaveFromSplit(t: Transcoder, buffer: seq<Block>, before: seq<Block>, b: Block, after: seq<Block>)
    requires b.IsCustom()
    ensures SaveFrom(t, buffer, before + [b] + after) == SaveFrom(t, buffer, before) + Template(b) + SaveFrom(t, [], after)
    decreases |before|
  {
    var s := before + [b] + after;
    if before == [] {
      assert s == [b] + after && s[0] == b && s[1..] == after;
    } else {
      assert s[0] == before[0] && s[1..] == before[1..] + [b] + after;
      if before[0].IsCustom() {
        SaveFromSplit(t, [], before[1..], b, after);
      } else {
        SaveFromSplit(t, buffer + [before[0]], before[1..], b, after);
      }
    }
  }

  /** What a saved custom block carries back is its decoded source: for
      text that `encodeURIComponent` produced, exactly the original. */
  lemma DecodeOrRawOfEncoded(x: string)
    ensures DecodeOrRaw(EncodeUriComponent(x)) == x
  {
    UriRoundTrip(x);
  }

  // ---------------------------------------------------------------------
  // Asset references
  // ---------------------------------------------------------------------

  /** `block.props.url` when it is a non-empty string, else "". */
  function UrlOf(b: Block): string {
    if b.Standard? && "url" in b.props then b.props["url"] else ""
  }

  function ChildrenOf(b: Block): seq<Block> {
    b.children
  }

  /** `getAllAssetUrls`: every non-empty `props.url`, children included. */
  function AssetUrls(blocks: seq<Block>): set<string>
    decreases blocks
  {
    if blocks == [] then {}
    else
      (if UrlOf(blocks[0]) != "" then {UrlOf(blocks[0])} else {})
      + AssetUrls(blocks[0].children) + AssetUrls(blocks[1..])
  }

  /** All blocks of a forest in pre-order. */
  function Flatten(blocks: seq<Block>): seq<Block>
    decreases blocks
  {
    if blocks == [] then [] else [blocks[0]] + Flatten(blocks[0].children) + Flatten(blocks[1..])
  }

  lemma {:induction false} AssetUrlsAppend(a: seq<Block>, b: seq<Block>)
    ensures AssetUrls(a + b) == AssetUrls(a) + AssetUrls(b)
    decreases a
  {
    if a == [] {
      assert a + b == b;
    } else {
      assert (a + b)[0] == a[0] && (a + b)[1..] == a[1..] + b;
      AssetUrlsAppend(a[1..], b);
    }
  }

  /** The non-empty URLs of a list of blocks, children not included. */
  function UrlSet(f: seq<Block>): set<string> {
    set b | b in f && UrlOf(b) != "" :: UrlOf(b)
  }

  lemma UrlSetConcat(a: seq<Block>, b: seq<Block>)
    ensures UrlSet(a + b) == UrlSet(a) + UrlSet(b)
  {
    forall u | u in UrlSet(a + b) ensures u in UrlSet(a) + UrlSet(b) {
      var x :| x in a + b && UrlOf(x) != "" && UrlOf(x) == u;
      assert x in a || x in b;
    }
    forall u | u in UrlSet(a) + UrlSet(b) ensures u in UrlSet(a + b) {
      if u in UrlSet(a) {
        var x :| x in a && UrlOf(x) != "" && UrlOf(x) == u;
        assert x in a + b;
      } else {
        var x :| x in b && UrlOf(x) != "" && UrlOf(x) == u;
        assert x in a + b;
      }
    }
  }

  lemma UrlSetSingle(b: Block)
    ensures UrlSet([b]) == if UrlOf(b) != "" then {UrlOf(b)} else {}
  {
    assert forall x :: x in [b] <==> x == b;
  }

  /** The URLs of a flattened forest: the first block's own, those under
      it and those of the blocks after it. */
  lemma FlattenUrls(blocks: seq<Block>)
    requires blocks != []
    ensures UrlSet(Flatten(blocks)) == (if UrlOf(blocks[0]) != "" then {UrlOf(blocks[0])} else {})
              + (UrlSet(Flatten(blocks[0].children)) + UrlSet(Flatten(blocks[1..])))
  {
    var head := blocks[0];
    assert Flatten(blocks) == [head] + (Flatten(head.children) + Flatten(blocks[1..]));
    UrlSetConcat([head], Flatten(head.children) + Flatten(blocks[1..]));
    UrlSetConcat(Flatten(head.children), Flatten(blocks[1..]));
    UrlSetSingle(head);
  }

  /** The referenced set is exactly the non-empty URLs of the blocks of the
      whole tree. */
  lemma {:induction false} AssetUrlsAreTreeUrls(blocks: seq<Block>)
    ensures AssetUrls(blocks) == UrlSet(Flatten(blocks))
    decreases blocks
  {
    if blocks != [] {
      var head := blocks[0];
      var own := if UrlOf(head) != "" then {UrlOf(head)} else {};
      assert AssetUrls(head.children) == UrlSet(Flatten(head.children)) by {
        AssetUrlsAreTreeUrls(head.children);
      }
      assert AssetUrls(blocks[1..]) == UrlSet(Flatten(blocks[1..])) by {
        AssetUrlsAreTreeUrls(blocks[1..]);
      }
      FlattenUrls(blocks);
      assert AssetUrls(blocks) == own + AssetUrls(head.children) + AssetUrls(blocks[1..]);
    }
  }

  lemma AssetUrlsStep(blocks: seq<Block>, i: nat)
    requires i < |blocks|
    ensures AssetUrls(blocks[..i + 1]) ==
              AssetUrls(blocks[..i]) + (if UrlOf(blocks[i]) != "" then {UrlOf(blocks[i])} else {}) + AssetUrls(blocks[i].children)
  {
    var block := blocks[i];
    assert blocks[..i + 1] == blocks[..i] + [block];
    AssetUrlsAppend(blocks[..i], [block]);
    assert [block][1..] == [];
  }

  /** `getAllAssetUrls` as written: a loop over the blocks adding each URL
      to a set, recursing into the children. */
  method CollectAssetUrls(blocks: seq<Block>) returns (urls: set<string>)
    ensures urls == AssetUrls(blocks)
    decreases blocks
  {
    urls := {};
    var i := 0;
    while i < |blocks|
      invariant 0 <= i <= |blocks|
      invariant urls == AssetUrls(blocks[..i])
    {
      var block := blocks[i];
      AssetUrlsStep(blocks, i);
      if UrlOf(block) != "" {
        urls := urls + {UrlOf(block)};
      }
      var inner := CollectAssetUrls(block.children);
      urls := urls + inner;
      i := i + 1;
    }
    assert blocks[..i] == blocks;
  }

  // ---------------------------------------------------------------------
  // Load: hiding fences and formulas behind placeholder tokens
  // ---------------------------------------------------------------------

  /** What the load pipeline remembers about a hidden fence or formula. */
  datatype Stash = CodeStash(language: string, code: string) | LatexStash(code: string)

  /** A placeholder: its counter value and what it stands for. */
  datatype Entry = Entry(id: nat, stash: Stash)

  function CodeToken(n: nat): string {
    "@@CODE_BLOCK_ID_" + NatToString(n) + "@@"
  }

  function LatexToken(n: nat): string {
    "@@LATEX_ID_" + NatToString(n) + "@@"
  }

  /** The token an entry was stored under. */
  function Key(e: Entry): string {
    if e.stash.CodeStash? then CodeToken(e.id) else LatexToken(e.id)
  }

  /** The end of the run of non-whitespace characters starting at `i`. */
  function NonSpaceRun(s: string, i: nat): (j: nat)
    requires i <= |s|
    ensures i <= j <= |s|
    ensures forall k :: i <= k < j ==> !IsJsSpace(s[k])
    ensures j < |s| ==> IsJsSpace(s[j])
    decreases |s| - i
  {
    if i < |s| && !IsJsSpace(s[i]) then NonSpaceRun(s, i + 1) else i
  }

  /** The end of the run of whitespace characters starting at `i`. */
  function SpaceRun(s: string, i: nat): (j: nat)
    requires i <= |s|
    ensures i <= j <= |s|
    ensures forall k :: i <= k < j ==> IsJsSpace(s[k])
    ensures j < |s| ==> !IsJsSpace(s[j])
    decreases |s| - i
  {
    if i < |s| && IsJsSpace(s[i]) then SpaceRun(s, i + 1) else i
  }

  /** The last line feed in `s[lo..hi]`. */
  function LastNewlineIn(s: string, lo: nat, hi: nat): (r: Option<nat>)
    requires lo <= hi <= |s|
    ensures r.Some? ==> lo <= r.value < hi && s[r.value] == '\n'
    ensures r.Some? ==> forall k :: r.value < k < hi ==> s[k] != '\n'
    ensures r.None? ==> forall k :: lo <= k < hi ==> s[k] != '\n'
    decreases hi - lo
  {
    if lo == hi then None
    else if s[hi - 1] == '\n' then Some(hi - 1)
    else LastNewlineIn(s, lo, hi - 1)
  }

  /** A match found at a given position: its first capture (the fence's
      language, empty for a formula), its body capture and where it ends. */
  datatype Span = Span(head: string, body: string, end: nat)

  /** The match of ```` /```(\S*)\s*\n([\s\S]*?)```/ ```` that starts
      exactly at `i`. `\S*` takes the whole run of non-whitespace (giving
      some back never lets `\s*\n` succeed), `\s*\n` ends at the last line
      feed of the whitespace run that follows (an earlier one only moves the
      body's start inside whitespace, where no closing fence can begin), and
      the lazy body stops at the first ```` ``` ```` after that. */
  function FenceAt(s: string, i: nat): (r: Option<Span>)
    requires i <= |s|
    ensures r.Some? ==> i < r.value.end <= |s|
  {
    if !At(s, "```", i) then None
    else FenceAfterLanguage(s, i, NonSpaceRun(s, i + 3))
  }

  /** The rest of a fence match once the language run ends at `langEnd`. */
  function FenceAfterLanguage(s: string, i: nat, langEnd: nat): (r: Option<Span>)
    requires i + 3 <= langEnd <= |s|
    ensures r.Some? ==> i < r.value.end <= |s|
  {
    match LastNewlineIn(s, langEnd, SpaceRun(s, langEnd))
    case None => None
    case Some(nl) => FenceAfterNewline(s, i, langEnd, nl)
  }

  /** The rest of a fence match once its body starts after `nl`. */
  function FenceAfterNewline(s: string, i: nat, langEnd: nat, nl: nat): (r: Option<Span>)
    requires i + 3 <= langEnd <= nl < |s|
    ensures r.Some? ==> i < r.value.end <= |s|
  {
    match FindFrom(s, "```", nl + 1)
    case None => None
    case Some(close) => Some(Span(s[i + 3..langEnd], s[nl + 1..close], close + 3))
  }

  /** The match of `/\$\$\n([\s\S]*?)\n\$\$/` that starts exactly at `i`. */
  function FormulaAt(s: string, i: nat): (r: Option<Span>)
    requires i <= |s|
    ensures r.Some? ==> i < r.value.end <= |s|
  {
    if !At(s, "$$\n", i) then None
    else
      match FindFrom(s, "\n$$", i + 3)
      case None => None
      case Some(close) => Some(Span("", s[i + 3..close], close + 3))
  }

  /** The result of one global `replace`: the new text, the placeholders
      recorded in order, and the counter afterwards. */
  datatype Pass = Pass(text: string, entries: seq<Entry>, next: nat)

  /** The fence `replace` from position `p` on with the counter at `counter`:
      the leftmost match is replaced by the next code token and scanning
      resumes after it; a position where no match starts is copied. */
  function FencePass(s: string, p: nat, counter: nat): Pass
    requires p <= |s|
    decreases |s| - p
  {
    if p == |s| then Pass([], [], counter)
    else
      match FenceAt(s, p)
      case Some(m) =>
        var rest := FencePass(s, m.end, counter + 1);
        var language := if m.head == "" then "text" else m.head;
        Pass(CodeToken(counter) + rest.text,
             [Entry(counter, CodeStash(language, Trim(m.body)))] + rest.entries,
             rest.next)
      case None =>
        var rest := FencePass(s, p + 1, counter);
        Pass([s[p]] + rest.text, rest.entries, rest.next)
  }

  /** The formula `replace`, continuing the same counter. */
  function FormulaPass(s: string, p: nat, counter: nat): Pass
    requires p <= |s|
    decreases |s| - p
  {
    if p == |s| then Pass([], [], counter)
    else
      match FormulaAt(s, p)
      case Some(m) =>
        var rest := FormulaPass(s, m.end, counter + 1);
        Pass(LatexToken(counter) + rest.text,
             [Entry(counter, LatexStash(Trim(m.body)))] + rest.entries,
             rest.next)
      case None =>
        var rest := FormulaPass(s, p + 1, counter);
        Pass([s[p]] + rest.text, rest.entries, rest.next)
  }

  /** The text handed to the markdown parser and the placeholder table. */
  datatype Extraction = Extraction(text: string, entries: seq<Entry>)

  function Extract(content: string): Extraction {
    var fences := FencePass(content, 0, 0);
    var formulas := FormulaPass(fences.text, 0, fences.next);
    Extraction(formulas.text, fences.entries + formulas.entries)
  }

  /** Regrouping the output already built with the rest of a pass. */
  lemma Regroup(text: string, piece: string, entries: seq<Entry>, added: seq<Entry>, rest: Pass)
    ensures Pass((text + piece) + rest.text, (entries + added) + rest.entries, rest.next)
         == Pass(text + (piece + rest.text), entries + (added + rest.entries), rest.next)
  {
  }

  /** The loop invariant of `ReplaceFences`: what is built so far followed
      by the pass over the rest is the whole pass. */
  predicate FenceLoop(s: string, counter: nat, p: nat, text: string, entries: seq<Entry>, next: nat)
    requires p <= |s|
  {
    var rest := FencePass(s, p, next);
    Pass(text + rest.text, entries + rest.entries, rest.next) == FencePass(s, 0, counter)
  }

  lemma FenceLoopStart(s: string, counter: nat)
    ensures FenceLoop(s, counter, 0, "", [], counter)
  {
    var whole := FencePass(s, 0, counter);
    assert "" + whole.text == whole.text && [] + whole.entries == whole.entries;
  }

  lemma FenceLoopDone(s: string, counter: nat, text: string, entries: seq<Entry>, next: nat)
    requires FenceLoop(s, counter, |s|, text, entries, next)
    ensures Pass(text, entries, next) == FencePass(s, 0, counter)
  {
    assert text + [] == text && entries + [] == entries;
  }

  lemma FenceLoopMatch(s: string, counter: nat, p: nat, text: string, entries: seq<Entry>, next: nat)
    requires p < |s| && FenceAt(s, p).Some? && FenceLoop(s, counter, p, text, entries, next)
    ensures var m := FenceAt(s, p).value;
            var language := if m.head == "" then "text" else m.head;
            FenceLoop(s, counter, m.end, text + CodeToken(next),
                      entries + [Entry(next, CodeStash(language, Trim(m.body)))], next + 1)
  {
    var m := FenceAt(s, p).value;
    var language := if m.head == "" then "text" else m.head;
    Regroup(text, CodeToken(next), entries, [Entry(next, CodeStash(language, Trim(m.body)))], FencePass(s, m.end, next + 1));
  }

  lemma FenceLoopCopy(s: string, counter: nat, p: nat, text: string, entries: seq<Entry>, next: nat)
    requires p < |s| && FenceAt(s, p).None? && FenceLoop(s, counter, p, text, entries, next)
    ensures FenceLoop(s, counter, p + 1, text + [s[p]], entries, next)
  {
    Regroup(text, [s[p]], entries, [], FencePass(s, p + 1, next));
    assert entries + [] == entries && [] + FencePass(s, p + 1, next).entries == FencePass(s, p + 1, next).entries;
  }

  /** One step of the fence `replace` at position `p`: a match is replaced
      by the next token, which the callback records under the counter it
      then bumps; any other character is copied. */
  method FenceStep(s: string, ghost counter: nat, p: nat, text: string, entries: seq<Entry>, next: nat)
    returns (p': nat, text': string, entries': seq<Entry>, next': nat)
    requires p < |s| && FenceLoop(s, counter, p, text, entries, next)
    ensures p < p' <= |s| && FenceLoop(s, counter, p', text', entries', next')
  {
    var found := FenceAt(s, p);
    if found.Some? {
      var m := found.value;
      var language := if m.head == "" then "text" else m.head;
      FenceLoopMatch(s, counter, p, text, entries, next);
      p', text', entries', next' := m.end, text + CodeToken(next), entries + [Entry(next, CodeStash(language, Trim(m.body)))], next + 1;
    } else {
      FenceLoopCopy(s, counter, p, text, entries, next);
      p', text', entries', next' := p + 1, text + [s[p]], entries, next;
    }
  }

  /** The fence `replace` as `loadNote` runs it, with the shared counter
      starting at `counter`. */
  method ReplaceFences(s: string, counter: nat) returns (r: Pass)
    ensures r == FencePass(s, 0, counter)
  {
    var text, entries, next := "", [], counter;
    var p := 0;
    FenceLoopStart(s, counter);
    while p < |s|
      invariant p <= |s|
      invariant FenceLoop(s, counter, p, text, entries, next)
      decreases |s| - p
    {
      p, text, entries, next := FenceStep(s, counter, p, text, entries, next);
    }
    FenceLoopDone(s, counter, text, entries, next);
    r := Pass(text, entries, next);
  }

  predicate FormulaLoop(s: string, counter: nat, p: nat, text: string, entries: seq<Entry>, next: nat)
    requires p <= |s|
  {
    var rest := FormulaPass(s, p, next);
    Pass(text + rest.text, entries + rest.entries, rest.next) == FormulaPass(s, 0, counter)
  }

  lemma FormulaLoopStart(s: string, counter: nat)
    ensures FormulaLoop(s, counter, 0, "", [], counter)
  {
    var whole := FormulaPass(s, 0, counter);
    assert "" + whole.text == whole.text && [] + whole.entries == whole.entries;
  }

  lemma FormulaLoopDone(s: string, counter: nat, text: string, entries: seq<Entry>, next: nat)
    requires FormulaLoop(s, counter, |s|, text, entries, next)
    ensures Pass(text, entries, next) == FormulaPass(s, 0, counter)
  {
    assert text + [] == text && entries + [] == entries;
  }

  lemma FormulaLoopMatch(s: string, counter: nat, p: nat, text: string, entries: seq<Entry>, next: nat)
    requires p < |s| && FormulaAt(s, p).Some? && FormulaLoop(s, counter, p, text, entries, next)
    ensures var m := FormulaAt(s, p).value;
            FormulaLoop(s, counter, m.end, text + LatexToken(next), entries + [Entry(next, LatexStash(Trim(m.body)))], next + 1)
  {
    var m := FormulaAt(s, p).value;
    Regroup(text, LatexToken(next), entries, [Entry(next, LatexStash(Trim(m.body)))], FormulaPass(s, m.end, next + 1));
  }

  lemma FormulaLoopCopy(s: string, counter: nat, p: nat, text: string, entries: seq<Entry>, next: nat)
    requires p < |s| && FormulaAt(s, p).None? && FormulaLoop(s, counter, p, text, entries, next)
    ensures FormulaLoop(s, counter, p + 1, text + [s[p]], entries, next)
  {
    Regroup(text, [s[p]], entries, [], FormulaPass(s, p + 1, next));
    assert entries + [] == entries && [] + FormulaPass(s, p + 1, next).entries == FormulaPass(s, p + 1, next).entries;
  }

  /** One step of the formula `replace` at position `p`. */
  method FormulaStep(s: string, ghost counter: nat, p: nat, text: string, entries: seq<Entry>, next: nat)
    returns (p': nat, text': string, entries': seq<Entry>, next': nat)
    requires p < |s| && FormulaLoop(s, counter, p, text, entries, next)
    ensures p < p' <= |s| && FormulaLoop(s, counter, p', text', entries', next')
  {
    var found := FormulaAt(s, p);
    if found.Some? {
      var m := found.value;
      FormulaLoopMatch(s, counter, p, text, entries, next);
      p', text', entries', next' := m.end, text + LatexToken(next), entries + [Entry(next, LatexStash(Trim(m.body)))], next + 1;
    } else {
      FormulaLoopCopy(s, counter, p, text, entries, next);
      p', text', entries', next' := p + 1, text + [s[p]], entries, next;
    }
  }

  /** The formula `replace`, continuing the counter the fences left. */
  method ReplaceFormulas(s: string, counter: nat) returns (r: Pass)
    ensures r == FormulaPass(s, 0, counter)
  {
    var text, entries, next := "", [], counter;
    var p := 0;
    FormulaLoopStart(s, counter);
    while p < |s|
      invariant p <= |s|
      invariant FormulaLoop(s, counter, p, text, entries, next)
      decreases |s| - p
    {
      p, text, entries, next := FormulaStep(s, counter, p, text, entries, next);
    }
    FormulaLoopDone(s, counter, text, entries, next);
    r := Pass(text, entries, next);
  }

  /** Stages 1 and 2 of `loadNote`: fences first, then formulas, from one
      counter starting at 0. */
  method ExtractPlaceholders(content: string) returns (e: Extraction)
    ensures e == Extract(content)
  {
    var fences := ReplaceFences(content, 0);
    var formulas := ReplaceFormulas(fences.text, fences.next);
    e := Extraction(formulas.text, fences.entries + formulas.entries);
  }

  /** A stored body is trimmed, and a stored fence language is never
      empty. */
  predicate WellFormedStash(st: Stash) {
    && Trim(st.code) == st.code
    && (st.CodeStash? ==> st.language != "")
  }

  /** The placeholders of a pass carry the counter values `counter`,
      `counter + 1`, ..., are all of one kind, and store well-formed bodies;
      the counter is left just past the last one. */
  predicate Numbered(r: Pass, counter: nat, code: bool) {
    && r.next == counter + |r.entries|
    && forall k :: 0 <= k < |r.entries| ==>
         r.entries[k].id == counter + k && r.entries[k].stash.CodeStash? == code && WellFormedStash(r.entries[k].stash)
  }

  lemma NumberedCons(e: Entry, rest: Pass, r: Pass, counter: nat, code: bool)
    requires r.entries == [e] + rest.entries && r.next == rest.next
    requires e.id == counter && e.stash.CodeStash? == code && WellFormedStash(e.stash)
    requires Numbered(rest, counter + 1, code)
    ensures Numbered(r, counter, code)
  {
    forall k | 1 <= k < |r.entries|
      ensures r.entries[k].id == counter + k && r.entries[k].stash.CodeStash? == code && WellFormedStash(r.entries[k].stash)
    {
      assert r.entries[k] == rest.entries[k - 1];
    }
  }

  lemma FenceStepSome(s: string, p: nat, counter: nat)
    requires p < |s| && FenceAt(s, p).Some?
    requires Numbered(FencePass(s, FenceAt(s, p).value.end, counter + 1), counter + 1, true)
    ensures Numbered(FencePass(s, p, counter), counter, true)
  {
    var m := FenceAt(s, p).value;
    var r, rest := FencePass(s, p, counter), FencePass(s, m.end, counter + 1);
    TrimIdempotent(m.body);
    NumberedCons(r.entries[0], rest, r, counter, true);
  }

  lemma FenceStepNone(s: string, p: nat, counter: nat)
    requires p < |s| && FenceAt(s, p).None?
    requires Numbered(FencePass(s, p + 1, counter), counter, true)
    ensures Numbered(FencePass(s, p, counter), counter, true)
  {
  }

  /** The placeholders of a pass are numbered consecutively from the
      counter it starts with, the counter ends just past the last one, and
      every stored body is well formed. */
  lemma {:induction false} FencePassNumbered(s: string, p: nat, counter: nat)
    requires p <= |s|
    ensures Numbered(FencePass(s, p, counter), counter, true)
    decreases |s| - p
  {
    if p < |s| {
      if FenceAt(s, p).Some? {
        FencePassNumbered(s, FenceAt(s, p).value.end, counter + 1);
        FenceStepSome(s, p, counter);
      } else {
        FencePassNumbered(s, p + 1, counter);
        FenceStepNone(s, p, counter);
      }
    }
  }

  lemma FormulaStepSome(s: string, p: nat, counter: nat)
    requires p < |s| && FormulaAt(s, p).Some?
    requires Numbered(FormulaPass(s, FormulaAt(s, p).value.end, counter + 1), counter + 1, false)
    ensures Numbered(FormulaPass(s, p, counter), counter, false)
  {
    var m := FormulaAt(s, p).value;
    var r, rest := FormulaPass(s, p, counter), FormulaPass(s, m.end, counter + 1);
    TrimIdempotent(m.body);
    NumberedCons(r.entries[0], rest, r, counter, false);
  }

  lemma FormulaStepNone(s: string, p: nat, counter: nat)
    requires p < |s| && FormulaAt(s, p).None?
    requires Numbered(FormulaPass(s, p + 1, counter), counter, false)
    ensures Numbered(FormulaPass(s, p, counter), counter, false)
  {
  }

  /** The placeholders of a pass are numbered consecutively from the
      counter it starts with, the counter ends just past the last one, and
      every stored body is well formed. */
  lemma {:induction false} FormulaPassNumbered(s: string, p: nat, counter: nat)
    requires p <= |s|
    ensures Numbered(FormulaPass(s, p, counter), counter, false)
    decreases |s| - p
  {
    if p < |s| {
      if FormulaAt(s, p).Some? {
        FormulaPassNumbered(s, FormulaAt(s, p).value.end, counter + 1);
        FormulaStepSome(s, p, counter);
      } else {
        FormulaPassNumbered(s, p + 1, counter);
        FormulaStepNone(s, p, counter);
      }
    }
  }

  /** Different counter values or kinds give different tokens. */
  lemma TokenInjective(a: Entry, b: Entry)
    requires Key(a) == Key(b)
    ensures a.id == b.id && a.stash.CodeStash? == b.stash.CodeStash?
  {
    var ka, kb := Key(a), Key(b);
    assert ka[2] == (if a.stash.CodeStash? then 'C' else 'L');
    assert kb[2] == (if b.stash.CodeStash? then 'C' else 'L');
    if a.stash.CodeStash? {
      assert ka[16..|ka| - 2] == NatToString(a.id);
      assert kb[16..|kb| - 2] == NatToString(b.id);
      NatToStringInjective(a.id, b.id);
    } else {
      assert ka[11..|ka| - 2] == NatToString(a.id);
      assert kb[11..|kb| - 2] == NatToString(b.id);
      NatToStringInjective(a.id, b.id);
    }
  }

  /** Every placeholder of a load is a distinct token, so no entry of the
      table overwrites another. */
  lemma ExtractKeysDistinct(content: string)
    ensures var e := Extract(content).entries;
      forall i, j :: 0 <= i < j < |e| ==> Key(e[i]) != Key(e[j])
  {
    var fences := FencePass(content, 0, 0);
    FencePassNumbered(content, 0, 0);
    FormulaPassNumbered(fences.text, 0, fences.next);
    var e := Extract(content).entries;
    assert forall k :: 0 <= k < |e| ==> e[k].id == k;
    forall i, j | 0 <= i < j < |e| ensures Key(e[i]) != Key(e[j]) {
      if Key(e[i]) == Key(e[j]) {
        TokenInjective(e[i], e[j]);
      }
    }
  }

  /** Trimming twice is trimming once. */
  lemma TrimIdempotent(s: string)
    ensures Trim(Trim(s)) == Trim(s)
  {
    TrimSlice(s);
    TrimNoop(Trim(s));
  }





  /** Stored bodies are trimmed and a fence without a language is stored as
      "text". */
  lemma ExtractWellFormed(content: string)
    ensures forall k :: 0 <= k < |Extract(content).entries| ==> WellFormedStash(Extract(content).entries[k].stash)
  {
    var fences := FencePass(content, 0, 0);
    FencePassNumbered(content, 0, 0);
    FormulaPassNumbered(fences.text, 0, fences.next);
  }

  // ---------------------------------------------------------------------
  // Load: restoring the custom blocks
  // ---------------------------------------------------------------------

  /** The last position below `n` whose entry was stored under `key`. */
  function LastKeyIndex(entries: seq<Entry>, key: string, n: nat): (r: Option<nat>)
    requires n <= |entries|
    ensures r.Some? ==> r.value < n && Key(entries[r.value]) == key
    ensures forall k :: (if r.Some? then r.value + 1 else 0) <= k < n ==> Key(entries[k]) != key
  {
    if n == 0 then None
    else if Key(entries[n - 1]) == key then Some(n - 1)
    else LastKeyIndex(entries, key, n - 1)
  }

  /** `codeBlockMap.get(key)`: the value of the last `set` of that key. */
  function Lookup(entries: seq<Entry>, key: string): Option<Stash> {
    match LastKeyIndex(entries, key, |entries|)
    case Some(k) => Some(entries[k].stash)
    case None => None
  }

  /** A paragraph whose only inline item is non-empty text: the only shape
      the restore step looks into. */
  predicate IsTextParagraph(b: Block) {
    b.Standard? && b.kind == "paragraph" && |b.content| == 1 && b.content[0].Text? && b.content[0].text != ""
  }

  /** The restore step for one parsed block: a paragraph that is exactly a
      recorded token (after trimming) becomes the custom block it stands
      for, with its source percent-encoded again and no children; every
      other block is kept. */
  function RestoreBlock(entries: seq<Entry>, b: Block): Block {
    if IsTextParagraph(b) then
      match Lookup(entries, Trim(b.content[0].text))
      case Some(LatexStash(code)) => Latex(EncodeUriComponent(code), [])
      case Some(CodeStash(language, code)) => Code(EncodeUriComponent(code), language, [])
      case None => b
    else b
  }

  function Restore(entries: seq<Entry>, blocks: seq<Block>): (r: seq<Block>)
    ensures |r| == |blocks|
  {
    seq(|blocks|, i requires 0 <= i < |blocks| => RestoreBlock(entries, blocks[i]))
  }

  /** The blocks `loadNote` builds from a file's content. */
  function LoadBlocks(t: Transcoder, content: string): seq<Block> {
    var extraction := Extract(content);
    Restore(extraction.entries, t.parse(extraction.text))
  }

  /** What the editor shows: the loaded blocks, or one empty paragraph when
      there are none. */
  function EditorBlocks(processed: seq<Block>): (r: seq<Block>)
    ensures r != []
    ensures processed != [] ==> r == processed
  {
    if |processed| == 0 then [EmptyParagraph()] else processed
  }

  /** A parsed block that is exactly the token of a recorded entry comes
      back as that entry's custom block, and saving that block writes the
      recorded source again. */
  lemma RestorePlaceholder(entries: seq<Entry>, b: Block, j: nat)
    requires forall i, k :: 0 <= i < k < |entries| ==> Key(entries[i]) != Key(entries[k])
    requires j < |entries| && IsTextParagraph(b) && Trim(b.content[0].text) == Key(entries[j])
    ensures var r, st := RestoreBlock(entries, b), entries[j].stash;
      && r == (if st.LatexStash? then Latex(EncodeUriComponent(st.code), []) else Code(EncodeUriComponent(st.code), st.language, []))
      && DecodeOrRaw(r.text) == st.code
  {
    var key := Key(entries[j]);
    var last := LastKeyIndex(entries, key, |entries|);
    assert last.Some? by {
      assert 0 <= j < |entries| && Key(entries[j]) == key;
    }
    assert last.value == j by {
      assert Key(entries[last.value]) == Key(entries[j]);
    }
    assert Lookup(entries, key) == Some(entries[j].stash);
    var code := entries[j].stash.code;
    assert DecodeOrRaw(EncodeUriComponent(code)) == code by {
      DecodeOrRawOfEncoded(code);
    }
    if entries[j].stash.LatexStash? {
      assert RestoreBlock(entries, b) == Latex(EncodeUriComponent(code), []);
    } else {
      assert RestoreBlock(entries, b) == Code(EncodeUriComponent(code), entries[j].stash.language, []);
    }
  }

  /** Every block that is not a recorded token is kept as parsed. */
  lemma RestoreKeepsOthers(entries: seq<Entry>, b: Block)
    requires !IsTextParagraph(b) || forall k :: 0 <= k < |entries| ==> Key(entries[k]) != Trim(b.content[0].text)
    ensures RestoreBlock(entries, b) == b
  {
  }

  // ---------------------------------------------------------------------
  // Save followed by load
  // ---------------------------------------------------------------------

  /** Trailing whitespace does not change the trim. */
  lemma TrimSpaceSuffix(x: string, c: char)
    requires IsJsSpace(c)
    ensures Trim(x + [c]) == Trim(x)
  {
    assert (x + [c])[..|x|] == x;
  }

  lemma FencePlainStep(s: string, p: nat, counter: nat)
    requires p < |s| && !At(s, "```", p)
    requires FencePass(s, p + 1, counter) == Pass(s[p + 1..], [], counter)
    ensures FencePass(s, p, counter) == Pass(s[p..], [], counter)
  {
    assert [s[p]] + s[p + 1..] == s[p..];
  }

  /** Text without a fence opener passes the fence `replace` unchanged. */
  lemma {:induction false} FencePassPlain(s: string, p: nat, counter: nat)
    requires p <= |s|
    requires forall k :: p <= k < |s| ==> !At(s, "```", k)
    ensures FencePass(s, p, counter) == Pass(s[p..], [], counter)
    decreases |s| - p
  {
    if p < |s| {
      FencePassPlain(s, p + 1, counter);
      FencePlainStep(s, p, counter);
    }
  }

  lemma FormulaPlainStep(s: string, p: nat, counter: nat)
    requires p < |s| && !At(s, "$$\n", p)
    requires FormulaPass(s, p + 1, counter) == Pass(s[p + 1..], [], counter)
    ensures FormulaPass(s, p, counter) == Pass(s[p..], [], counter)
  {
    assert [s[p]] + s[p + 1..] == s[p..];
  }

  /** Text without a formula opener passes the formula `replace` unchanged. */
  lemma {:induction false} FormulaPassPlain(s: string, p: nat, counter: nat)
    requires p <= |s|
    requires forall k :: p <= k < |s| ==> !At(s, "$$\n", k)
    ensures FormulaPass(s, p, counter) == Pass(s[p..], [], counter)
    decreases |s| - p
  {
    if p < |s| {
      FormulaPassPlain(s, p + 1, counter);
      FormulaPlainStep(s, p, counter);
    }
  }

  /** The text a code block with source `x` is saved as. */
  function CodeText(x: string, language: string): string {
    "\n```" + language + "\n" + x + "\n```\n"
  }

  /** The text a formula with source `x` is saved as. */
  function LatexText(x: string): string {
    "\n$$\n" + x + "\n$$\n"
  }

  lemma FenceAtIs(s: string, i: nat, langEnd: nat, wsEnd: nat, nl: nat, close: nat)
    requires i <= |s| && At(s, "```", i)
    requires i + 3 <= langEnd <= |s| && NonSpaceRun(s, i + 3) == langEnd
    requires wsEnd <= |s| && SpaceRun(s, langEnd) == wsEnd
    requires LastNewlineIn(s, langEnd, wsEnd) == Some(nl)
    requires FindFrom(s, "```", nl + 1) == Some(close)
    ensures nl + 1 <= close && FenceAt(s, i).Some?
    ensures FenceAt(s, i).value.head == s[i + 3..langEnd]
    ensures FenceAt(s, i).value.body == s[nl + 1..close]
    ensures FenceAt(s, i).value.end == close + 3
  {
    assert FenceAt(s, i) == FenceAfterLanguage(s, i, langEnd);
    FenceAfterLanguageIs(s, i, langEnd, wsEnd, nl, close);
  }

  lemma FenceAfterLanguageIs(s: string, i: nat, langEnd: nat, wsEnd: nat, nl: nat, close: nat)
    requires i + 3 <= langEnd <= |s|
    requires wsEnd <= |s| && SpaceRun(s, langEnd) == wsEnd
    requires LastNewlineIn(s, langEnd, wsEnd) == Some(nl)
    requires FindFrom(s, "```", nl + 1) == Some(close)
    ensures nl + 1 <= close && close + 3 <= |s|
    ensures FenceAfterLanguage(s, i, langEnd) == Some(Span(s[i + 3..langEnd], s[nl + 1..close], close + 3))
  {
    assert FenceAfterLanguage(s, i, langEnd) == FenceAfterNewline(s, i, langEnd, nl);
    FenceAfterNewlineIs(s, i, langEnd, nl, close);
  }

  lemma FenceAfterNewlineIs(s: string, i: nat, langEnd: nat, nl: nat, close: nat)
    requires i + 3 <= langEnd <= nl < |s|
    requires FindFrom(s, "```", nl + 1) == Some(close)
    ensures nl + 1 <= close && close + 3 <= |s|
    ensures FenceAfterNewline(s, i, langEnd, nl) == Some(Span(s[i + 3..langEnd], s[nl + 1..close], close + 3))
  {
  }

  /** The run of non-whitespace after a saved code block's opening fence
      is exactly its language. */
  lemma CodeTextLanguageRun(x: string, language: string)
    requires forall i :: 0 <= i < |language| ==> !IsJsSpace(language[i])
    ensures var s := CodeText(x, language);
      4 + |language| < |s| && At(s, "```", 1) && NonSpaceRun(s, 4) == 4 + |language| && s[4..4 + |language|] == language
  {
    var s := CodeText(x, language);
    var L := 4 + |language|;
    assert s[..4] == "\n```" && s[4..L] == language && s[L] == '\n';
    assert s[1..4] == "```";
    assert forall i :: 4 <= i < L ==> s[i] == language[i - 4];
    assert IsJsSpace(s[L]);
  }

  /** The closing fence of a saved code block whose source is `x` is the
      first fence after the source starts. */
  lemma CodeTextClose(x: string, language: string)
    requires forall k :: 0 <= k <= |x| ==> !At(x + "\n```", "```", k)
    ensures var s, B := CodeText(x, language), 5 + |language|;
      FindFrom(s, "```", B) == Some(B + |x| + 1) && s[B..B + |x| + 1] == x + "\n" && B + |x| + 4 == |s| - 1
  {
    var s, B := CodeText(x, language), 5 + |language|;
    var head, tail := "\n```" + language + "\n", x + "\n```";
    assert s == head + tail + "\n";
    assert At(tail, "```", |x| + 1) by {
      assert tail[|x| + 1..|x| + 4] == "```";
    }
    assert |head| == B;
    assert FindFrom(s, "```", B) == Some(B + |x| + 1) by {
      FirstMatchInside(head, tail, "\n", "```", |x| + 1);
    }
    assert s[B..B + |x| + 1] == tail[..|x| + 1];
  }

  /** The first match of `pat` inside `t` is the first one from where `t`
      starts in `a + t + b`. */
  lemma FirstMatchInside(a: string, t: string, b: string, pat: string, m: nat)
    requires At(t, pat, m) && forall k :: 0 <= k < m ==> !At(t, pat, k)
    ensures FindFrom(a + t + b, pat, |a|) == Some(|a| + m)
  {
    var s := a + t + b;
    forall k | |a| <= k <= |a| + m ensures At(s, pat, k) == At(t, pat, k - |a|) {
      assert s[k..k + |pat|] == t[k - |a|..k - |a| + |pat|];
    }
    FindFromFirst(s, pat, |a|, |a| + m);
  }

  /** A match with no match before it, from `from` on, is the one found. */
  lemma FindFromFirst(s: string, pat: string, from: nat, m: nat)
    requires from <= m && At(s, pat, m) && forall k :: from <= k < m ==> !At(s, pat, k)
    ensures FindFrom(s, pat, from) == Some(m)
  {
    var r := FindFrom(s, pat, from);
    assert r.Some?;
  }

  /** Where the body of a saved code block starts: after the language
      line, or one line later when the source is empty. */
  function BodyStart(x: string, language: string): nat {
    if x == [] then 6 + |language| else 5 + |language|
  }

  /** The whitespace after the language of a saved code block ends at the
      line feed before the source, or at the one after it when the source
      is empty; the body starts right after it. */
  lemma CodeTextNewline(x: string, language: string)
    requires Trim(x) == x
    ensures var s, L := CodeText(x, language), 4 + |language|;
      var B := BodyStart(x, language);
      LastNewlineIn(s, L, SpaceRun(s, L)) == Some(B - 1)
  {
    var s, L := CodeText(x, language), 4 + |language|;
    TrimSlice(x);
    assert s[L] == '\n' && s[L + 1..] == x + "\n```\n";
    if x == [] {
      assert s[L + 1] == '\n' && s[L + 2] == '`';
      assert SpaceRun(s, L + 2) == L + 2;
      assert SpaceRun(s, L + 1) == L + 2;
      assert SpaceRun(s, L) == L + 2;
    } else {
      assert s[L + 1] == x[0] && !IsJsSpace(x[0]);
      assert SpaceRun(s, L) == L + 1;
    }
  }

  /** The body of a saved code block runs from after the language line to
      the closing fence. */
  lemma CodeTextBody(x: string, language: string)
    requires forall k :: 0 <= k <= |x| ==> !At(x + "\n```", "```", k)
    ensures var s, L := CodeText(x, language), 4 + |language|;
      var B := BodyStart(x, language);
      && B <= L + 2 + |x| <= |s|
      && FindFrom(s, "```", B) == Some(L + 2 + |x|)
      && s[B..L + 2 + |x|] == x + (if x == [] then "" else "\n")
  {
    var s := CodeText(x, language);
    var L := 4 + |language|;
    CodeTextClose(x, language);
    if x == [] {
      assert s[L + 2..L + 5] == "```";
    }
  }

  /** In a saved code block the fence match starts at the opening fence,
      captures the language and a body whose trim is the saved source, and
      ends just before the final line feed. */
  lemma CodeTextFence(x: string, language: string)
    requires Trim(x) == x
    requires forall i :: 0 <= i < |language| ==> !IsJsSpace(language[i])
    requires forall k :: 0 <= k <= |x| ==> !At(x + "\n```", "```", k)
    ensures var s := CodeText(x, language);
      && FenceAt(s, 1).Some?
      && FenceAt(s, 1).value.head == language
      && Trim(FenceAt(s, 1).value.body) == x
      && FenceAt(s, 1).value.end == |s| - 1
  {
    var s := CodeText(x, language);
    var L := 4 + |language|;
    CodeTextLanguageRun(x, language);
    CodeTextNewline(x, language);
    CodeTextBody(x, language);
    var B := BodyStart(x, language);
    var close := L + 2 + |x|;
    FenceAtIs(s, 1, L, SpaceRun(s, L), B - 1, close);
    if x != [] {
      TrimSpaceSuffix(x, '\n');
    }
  }

  /** `"\n" + tok + "\n"` regrouped. */
  lemma LineAround(tok: string)
    ensures "\n" + tok + "\n" == ['\n'] + (tok + "\n")
  {
  }

  lemma FencePassMatch(s: string, p: nat, counter: nat)
    requires p < |s| && FenceAt(s, p).Some?
    ensures var m := FenceAt(s, p).value;
      var r, rest := FencePass(s, p, counter), FencePass(s, m.end, counter + 1);
      && r.text == CodeToken(counter) + rest.text
      && r.entries == [Entry(counter, CodeStash(if m.head == "" then "text" else m.head, Trim(m.body)))] + rest.entries
      && r.next == rest.next
  {
  }

  lemma FencePassSkip(s: string, p: nat, counter: nat)
    requires p < |s| && !At(s, "```", p)
    ensures var r, rest := FencePass(s, p, counter), FencePass(s, p + 1, counter);
      r.text == [s[p]] + rest.text && r.entries == rest.entries && r.next == rest.next
  {
  }

  /** A text that is a line feed, one fence match and a final line feed
      becomes the first code token between two line feeds. */
  lemma FencePassSingle(s: string)
    requires 2 <= |s| && s[0] == '\n' && s[|s| - 1] == '\n'
    requires FenceAt(s, 1).Some? && FenceAt(s, 1).value.end == |s| - 1 && FenceAt(s, 1).value.head != ""
    ensures FencePass(s, 0, 0).text == "\n" + CodeToken(0) + "\n"
    ensures FencePass(s, 0, 0).entries == [Entry(0, CodeStash(FenceAt(s, 1).value.head, Trim(FenceAt(s, 1).value.body)))]
    ensures FencePass(s, 0, 0).next == 1
  {
    FencePassPlain(s, |s| - 1, 1);
    assert s[|s| - 1..] == "\n";
    FencePassMatch(s, 1, 0);
    NotAt(s, "```", 0);
    FencePassSkip(s, 0, 0);
    LineAround(CodeToken(0));
  }

  /** The fence `replace` turns a saved code block into its token between
      the two line feeds and records its language and source. */
  lemma CodeTextFencePass(x: string, language: string)
    requires Trim(x) == x && language != []
    requires forall i :: 0 <= i < |language| ==> !IsJsSpace(language[i])
    requires forall k :: 0 <= k <= |x| ==> !At(x + "\n```", "```", k)
    ensures FencePass(CodeText(x, language), 0, 0).text == "\n" + CodeToken(0) + "\n"
    ensures FencePass(CodeText(x, language), 0, 0).entries == [Entry(0, CodeStash(language, x))]
    ensures FencePass(CodeText(x, language), 0, 0).next == 1
  {
    CodeTextFence(x, language);
    FencePassSingle(CodeText(x, language));
  }

  /** The token text of the first placeholder has no `$`, so the formula
      `replace` leaves it alone. */
  lemma CodeTokenFormulaFree()
    ensures FormulaPass("\n" + CodeToken(0) + "\n", 0, 1) == Pass("\n" + CodeToken(0) + "\n", [], 1)
  {
    var t := "\n" + CodeToken(0) + "\n";
    assert NatToString(0) == "0";
    assert t == "\n@@CODE_BLOCK_ID_0@@\n";
    TokenZeroDollarFree();
    forall k | 0 <= k < |t| ensures !At(t, "$$\n", k) {
      NotAt(t, "$$\n", k);
    }
    FormulaPassPlain(t, 0, 1);
    assert t[0..] == t;
  }

  lemma TokenZeroDollarFree()
    ensures forall k :: 0 <= k < |"\n@@CODE_BLOCK_ID_0@@\n"| ==> "\n@@CODE_BLOCK_ID_0@@\n"[k] != '$'
  {
  }

  /** Loading a saved code block hides it behind the first code token and
      records its language and source. */
  lemma CodeTextExtract(x: string, language: string)
    requires Trim(x) == x && language != []
    requires forall i :: 0 <= i < |language| ==> !IsJsSpace(language[i])
    requires forall k :: 0 <= k <= |x| ==> !At(x + "\n```", "```", k)
    ensures Extract(CodeText(x, language)).text == "\n" + CodeToken(0) + "\n"
    ensures Extract(CodeText(x, language)).entries == [Entry(0, CodeStash(language, x))]
  {
    CodeTextFencePass(x, language);
    CodeTokenFormulaFree();
    var fences := FencePass(CodeText(x, language), 0, 0);
    assert fences.entries + [] == fences.entries;
  }

  /** A formula source without a fence opener leaves no fence opener in
      its saved text. */
  lemma LatexTextNoFence(x: string)
    requires !Contains(x, "```")
    ensures var s := LatexText(x); forall k :: 0 <= k < |s| ==> !At(s, "```", k)
  {
    var s := LatexText(x);
    var n := |x|;
    assert s[4..4 + n] == x && s[4 + n..] == "\n$$\n" && s[..4] == "\n$$\n";
    forall k | 0 <= k < |s| ensures !At(s, "```", k) {
      if k < 4 || k >= 4 + n {
        NotAt(s, "```", k);
      } else if k + 3 <= 4 + n {
        assert s[k..k + 3] == x[k - 4..k - 1];
        assert !At(x, "```", k - 4);
      } else {
        NotAt(s[k..], "```", 4 + n - k);
        assert s[k..][4 + n - k] == s[4 + n];
        if k + 3 <= |s| {
          assert s[k..k + 3][4 + n - k] == s[4 + n];
        }
      }
    }
  }

  /** In a saved formula the formula match starts at the opening `$$`,
      captures the source and ends just before the final line feed. */
  lemma LatexTextFormula(x: string)
    requires forall k :: 0 <= k < |x| ==> !At(x + "\n$$", "\n$$", k)
    ensures var s := LatexText(x);
      && FormulaAt(s, 1).Some?
      && FormulaAt(s, 1).value.body == x
      && FormulaAt(s, 1).value.end == |s| - 1
  {
    var s := LatexText(x);
    var tail := x + "\n$$";
    assert s[1..4] == "$$\n";
    assert s[4..4 + |tail|] == tail;
    forall k | 4 <= k < 4 + |x|
      ensures !At(s, "\n$$", k)
    {
      assert !At(tail, "\n$$", k - 4);
      assert s[k..k + 3] == tail[k - 4..k - 1];
    }
    assert s[4 + |x|..4 + |x| + 3] == tail[|x|..];
    assert At(s, "\n$$", 4 + |x|);
    assert FindFrom(s, "\n$$", 4) == Some(4 + |x|);
    assert s[4..4 + |x|] == x;
  }

  lemma FormulaPassMatch(s: string, p: nat, counter: nat)
    requires p < |s| && FormulaAt(s, p).Some?
    ensures var m := FormulaAt(s, p).value;
      var r, rest := FormulaPass(s, p, counter), FormulaPass(s, m.end, counter + 1);
      && r.text == LatexToken(counter) + rest.text
      && r.entries == [Entry(counter, LatexStash(Trim(m.body)))] + rest.entries
      && r.next == rest.next
  {
  }

  lemma FormulaPassSkip(s: string, p: nat, counter: nat)
    requires p < |s| && !At(s, "$$\n", p)
    ensures var r, rest := FormulaPass(s, p, counter), FormulaPass(s, p + 1, counter);
      r.text == [s[p]] + rest.text && r.entries == rest.entries && r.next == rest.next
  {
  }

  /** A text that is a line feed, one formula match and a final line feed
      becomes the formula token between two line feeds. */
  lemma FormulaPassSingle(s: string, counter: nat)
    requires 2 <= |s| && s[0] == '\n' && s[|s| - 1] == '\n'
    requires FormulaAt(s, 1).Some? && FormulaAt(s, 1).value.end == |s| - 1
    ensures FormulaPass(s, 0, counter).text == "\n" + LatexToken(counter) + "\n"
    ensures FormulaPass(s, 0, counter).entries == [Entry(counter, LatexStash(Trim(FormulaAt(s, 1).value.body)))]
  {
    FormulaPassPlain(s, |s| - 1, counter + 1);
    assert s[|s| - 1..] == "\n";
    FormulaPassMatch(s, 1, counter);
    NotAt(s, "$$\n", 0);
    FormulaPassSkip(s, 0, counter);
    LineAround(LatexToken(counter));
  }

  /** Loading a saved formula hides it behind the first formula token and
      records its source. */
  lemma LatexTextExtract(x: string)
    requires Trim(x) == x && !Contains(x, "```")
    requires forall k :: 0 <= k < |x| ==> !At(x + "\n$$", "\n$$", k)
    ensures Extract(LatexText(x)).text == "\n" + LatexToken(0) + "\n"
    ensures Extract(LatexText(x)).entries == [Entry(0, LatexStash(x))]
  {
    var s := LatexText(x);
    LatexTextNoFence(x);
    FencePassPlain(s, 0, 0);
    assert s[0..] == s;
    LatexTextFormula(x);
    FormulaPassSingle(s, 0);
  }

  /** The transcoder reads the line holding a token as one paragraph whose
      only inline item is that token (up to surrounding whitespace). */
  predicate ParsesToToken(t: Transcoder, token: string) {
    var parsed := t.parse("\n" + token + "\n");
    |parsed| == 1 && IsTextParagraph(parsed[0]) && Trim(parsed[0].content[0].text) == token
  }

  /** The block a recorded entry is restored as. */
  function StashBlock(st: Stash): Block {
    if st.LatexStash? then Latex(EncodeUriComponent(st.code), []) else Code(EncodeUriComponent(st.code), st.language, [])
  }

  /** A content that extracts to a single token line parses, when the
      transcoder reads that line as the token's paragraph, to the token's
      custom block alone. */
  lemma LoadSingleToken(t: Transcoder, content: string, e: Entry, token: string)
    requires Key(e) == token
    requires Extract(content).text == "\n" + token + "\n" && Extract(content).entries == [e]
    requires ParsesToToken(t, token)
    ensures LoadBlocks(t, content) == [StashBlock(e.stash)]
  {
    var parsed := t.parse("\n" + token + "\n");
    RestorePlaceholder([e], parsed[0], 0);
    assert Restore([e], parsed) == [RestoreBlock([e], parsed[0])];
  }

  lemma LoadCodeToken(t: Transcoder, content: string, x: string, language: string)
    requires Extract(content).text == "\n" + CodeToken(0) + "\n"
    requires Extract(content).entries == [Entry(0, CodeStash(language, x))]
    requires ParsesToToken(t, CodeToken(0))
    ensures LoadBlocks(t, content) == [Code(EncodeUriComponent(x), language, [])]
  {
    LoadSingleToken(t, content, Entry(0, CodeStash(language, x)), CodeToken(0));
  }

  lemma LoadLatexToken(t: Transcoder, content: string, x: string)
    requires Extract(content).text == "\n" + LatexToken(0) + "\n"
    requires Extract(content).entries == [Entry(0, LatexStash(x))]
    requires ParsesToToken(t, LatexToken(0))
    ensures LoadBlocks(t, content) == [Latex(EncodeUriComponent(x), [])]
  {
    LoadSingleToken(t, content, Entry(0, LatexStash(x)), LatexToken(0));
  }

  lemma SerializeSingle(t: Transcoder, b: Block)
    requires b.IsCustom()
    ensures Serialize(t, [b]) == Template(b)
  {
    SerializeSplit(t, [], b, []);
    assert [] + [b] + [] == [b];
  }

  /** Saving a document that is one code block writes its template. */
  lemma SaveCodeBlock(t: Transcoder, x: string, language: string)
    ensures Serialize(t, [Code(EncodeUriComponent(x), language, [])]) == CodeText(x, language)
  {
    var b := Code(EncodeUriComponent(x), language, []);
    DecodeOrRawOfEncoded(x);
    SerializeSingle(t, b);
  }

  /** Loading a saved code block gives the block back. */
  lemma LoadCodeText(t: Transcoder, x: string, language: string)
    requires Trim(x) == x && language != []
    requires forall i :: 0 <= i < |language| ==> !IsJsSpace(language[i])
    requires forall k :: 0 <= k <= |x| ==> !At(x + "\n```", "```", k)
    requires ParsesToToken(t, CodeToken(0))
    ensures LoadBlocks(t, CodeText(x, language)) == [Code(EncodeUriComponent(x), language, [])]
  {
    CodeTextExtract(x, language);
    LoadCodeToken(t, CodeText(x, language), x, language);
  }

  /** Saving a document that is one code block and loading the result gives
      the same block back: its source (which may itself contain `$$`
      lines, since fences are hidden before formulas are looked for) and
      its language survive. */
  lemma CodeBlockRoundTrip(t: Transcoder, x: string, language: string)
    requires Trim(x) == x && language != []
    requires forall i :: 0 <= i < |language| ==> !IsJsSpace(language[i])
    requires forall k :: 0 <= k <= |x| ==> !At(x + "\n```", "```", k)
    requires ParsesToToken(t, CodeToken(0))
    ensures var doc := [Code(EncodeUriComponent(x), language, [])];
      LoadBlocks(t, Serialize(t, doc)) == doc
  {
    SaveCodeBlock(t, x, language);
    LoadCodeText(t, x, language);
  }

  /** Saving a document that is one formula writes its template. */
  lemma SaveLatex(t: Transcoder, x: string)
    ensures Serialize(t, [Latex(EncodeUriComponent(x), [])]) == LatexText(x)
  {
    var b := Latex(EncodeUriComponent(x), []);
    DecodeOrRawOfEncoded(x);
    SerializeSingle(t, b);
  }

  /** Loading a saved formula gives the formula back. */
  lemma LoadLatexText(t: Transcoder, x: string)
    requires Trim(x) == x && !Contains(x, "```")
    requires forall k :: 0 <= k < |x| ==> !At(x + "\n$$", "\n$$", k)
    requires ParsesToToken(t, LatexToken(0))
    ensures LoadBlocks(t, LatexText(x)) == [Latex(EncodeUriComponent(x), [])]
  {
    LatexTextExtract(x);
    LoadLatexToken(t, LatexText(x), x);
  }

  /** Saving a document that is one formula and loading the result gives
      the same formula back. */
  lemma LatexRoundTrip(t: Transcoder, x: string)
    requires Trim(x) == x && !Contains(x, "```")
    requires forall k :: 0 <= k < |x| ==> !At(x + "\n$$", "\n$$", k)
    requires ParsesToToken(t, LatexToken(0))
    ensures var doc := [Latex(EncodeUriComponent(x), [])];
      LoadBlocks(t, Serialize(t, doc)) == doc
  {
    SaveLatex(t, x);
    LoadLatexText(t, x);
  }
}
