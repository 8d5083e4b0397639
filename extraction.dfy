/** The whole of `extract` as one function of the state before the call, and
    what it guarantees: the no-op on blank content, the parse-error wrap, one
    block per comment, first-comment promotion, the example-file outcomes and
    the flattened examples. */
module Extraction {
  import opened Docs
  import opened JsString
  import opened Dispatch
  import opened Join

  /** `options || {}`: absent options mean `raw` off and nothing passed on. */
  function EffectiveOptions(options: Option<Options>): Options {
    options.GetOr(Options(false, map[]))
  }

  /** The blocks of the comments before any example file is read, in comment order. */
  function BuildAll(cs: seq<Comment>, raw: bool, lib: Libraries): seq<CodeBlock> {
    seq(|cs|, i requires 0 <= i < |cs| => BuildBlock(cs[i], raw, lib))
  }

  /** The example-file reads of all comments in issue order: comment by
      comment, tag by tag. Each belongs to one of the blocks. */
  function AllReads(cs: seq<Comment>, dir: string, lib: Libraries): (r: seq<PendingRead>)
    ensures ReadsInRange(r, |cs|)
    decreases |cs|
  {
    if cs == [] then []
    else
      var n := |cs| - 1;
      AllReads(cs[..n], dir, lib) + CommentReads(n, cs[n].tags, cs[n].line, dir, lib)
  }

  /** One more comment, as the comment loop takes it. */
  lemma CommentStep(cs: seq<Comment>, i: nat, raw: bool, dir: string, lib: Libraries)
    requires i < |cs|
    ensures BuildAll(cs[..i + 1], raw, lib) == BuildAll(cs[..i], raw, lib) + [BuildBlock(cs[i], raw, lib)]
    ensures AllReads(cs[..i + 1], dir, lib) == AllReads(cs[..i], dir, lib) + CommentReads(i, cs[i].tags, cs[i].line, dir, lib)
  {
    assert cs[..i + 1][..i] == cs[..i] && cs[..i + 1][i] == cs[i];
  }

  /** The result of `extract` and the state it leaves, from the state before it. */
  function Run(s0: State, src: SourceInfo, options: Option<Options>, lib: Libraries, readFile: string -> ReadResult): (Outcome, State) {
    var opts := EffectiveOptions(options);
    if Trim(src.content) == "" then (Done, s0)
    else
      match lib.parseComments(src.content, opts)
      case ParseError(message) => (Failed(InvalidDoc(src.path, message)), s0)
      case Comments(cs) =>
        var attrs := if |cs| > 0 then ApplyWrites(s0.attrs, cs[0].tags, SourceAttrs) else s0.attrs;
        var joined := SettleAll(Joined(BuildAll(cs, opts.raw, lib), s0.deps, None),
                                AllReads(cs, lib.dirname(src.absolutePath), lib), readFile, src.path, lib);
        var blocks := if |cs| > 0 then Some(joined.blocks) else s0.blocks;
        if joined.failure.Some? then (Failed(joined.failure.value), State(attrs, blocks, joined.deps))
        else if blocks.None? then (Failed(BlocksUnset), State(attrs, blocks, joined.deps))
        else (Done, State(attrs, Some(FlattenAll(blocks.value)), joined.deps))
  }

  // ---------------------------------------------------------------------------
  // Independent statements of what a block's examples end up being.

  /** The examples the file named by one `@example-file` tag contributes: what
      the example parser finds in the file, or none when the file cannot be read. */
  function TagFileExamples(tag: Tag, dir: string, readFile: string -> ReadResult, lib: Libraries): seq<Example> {
    if tag.name == "example-file" then
      match readFile(lib.resolve(dir, tag.text))
      case Contents(text) => lib.parseExamples(text)
      case _ => []
    else []
  }

  function FileExamples(tags: seq<Tag>, dir: string, readFile: string -> ReadResult, lib: Libraries): seq<Example>
    decreases |tags|
  {
    if tags == [] then []
    else FileExamples(tags[..|tags| - 1], dir, readFile, lib) + TagFileExamples(tags[|tags| - 1], dir, readFile, lib)
  }

  /** A block's examples once all reads are in: every inline `@example`
      result, in tag order, then every `@example-file` result, in tag order. */
  function ExpectedExamples(c: Comment, dir: string, readFile: string -> ReadResult, lib: Libraries): seq<Example> {
    InlineAll(c.tags, lib) + FileExamples(c.tags, dir, readFile, lib)
  }

  /** The paths the loader receives as dependencies, in issue order. */
  function ReadPaths(pending: seq<PendingRead>): seq<string> {
    seq(|pending|, k requires 0 <= k < |pending| => pending[k].path)
  }

  // ---------------------------------------------------------------------------
  // Lemmas about the reads.

  lemma {:induction false} FileEntriesOtherBlock(pending: seq<PendingRead>, b: nat, readFile: string -> ReadResult, lib: Libraries)
    requires forall k :: 0 <= k < |pending| ==> pending[k].block != b
    ensures FileEntries(pending, b, readFile, lib) == []
    decreases |pending|
  {
    if pending != [] {
      FileEntriesOtherBlock(pending[1..], b, readFile, lib);
    }
  }

  /** The entries one tag's read pushes onto its own block, flattened, are its file's examples. */
  lemma TagFileEntries(b: nat, tag: Tag, line: int, dir: string, readFile: string -> ReadResult, lib: Libraries)
    ensures Flatten(FileEntries(TagReads(b, tag, line, dir, lib), b, readFile, lib)) == TagFileExamples(tag, dir, readFile, lib)
  {
    var issued := TagReads(b, tag, line, dir, lib);
    if tag.name == "example-file" {
      assert issued[1..] == [];
      match readFile(lib.resolve(dir, tag.text)) {
        case Contents(text) =>
          assert FileEntries(issued, b, readFile, lib) == [Many(lib.parseExamples(text))];
          assert Flatten([Many(lib.parseExamples(text))])[..] == lib.parseExamples(text) + Flatten([]);
        case Failure(_) =>
          assert FileEntries(issued, b, readFile, lib) == [];
      }
    }
  }

  /** Flattened, the entries one comment's reads push onto its block are the
      examples of its example files in tag order. */
  lemma {:induction false} CommentFileEntries(b: nat, tags: seq<Tag>, line: int, dir: string, readFile: string -> ReadResult, lib: Libraries)
    ensures Flatten(FileEntries(CommentReads(b, tags, line, dir, lib), b, readFile, lib)) == FileExamples(tags, dir, readFile, lib)
    decreases |tags|
  {
    if tags != [] {
      var n := |tags| - 1;
      var before := CommentReads(b, tags[..n], line, dir, lib);
      var last := TagReads(b, tags[n], line, dir, lib);
      assert CommentReads(b, tags, line, dir, lib) == before + last;
      CommentFileEntries(b, tags[..n], line, dir, readFile, lib);
      TagFileEntries(b, tags[n], line, dir, readFile, lib);
      FileEntriesAppend(before, last, b, readFile, lib);
      FlattenAppend(FileEntries(before, b, readFile, lib), FileEntries(last, b, readFile, lib));
    }
  }

  /** Of all the reads issued, the ones that push onto block `b` are those of comment `b`. */
  lemma {:induction false} BlockFileEntries(cs: seq<Comment>, b: nat, dir: string, readFile: string -> ReadResult, lib: Libraries)
    requires b < |cs|
    ensures FileEntries(AllReads(cs, dir, lib), b, readFile, lib)
         == FileEntries(CommentReads(b, cs[b].tags, cs[b].line, dir, lib), b, readFile, lib)
    decreases |cs|
  {
    var n := |cs| - 1;
    var prefix := cs[..n];
    var before := AllReads(prefix, dir, lib);
    var last := CommentReads(n, cs[n].tags, cs[n].line, dir, lib);
    FileEntriesAppend(before, last, b, readFile, lib);
    if b < n {
      BlockFileEntries(prefix, b, dir, readFile, lib);
      assert prefix[b] == cs[b];
      FileEntriesOtherBlock(last, b, readFile, lib);
    } else {
      FileEntriesOtherBlock(before, b, readFile, lib);
    }
  }

  /** Every read issued comes from an `@example-file` tag of some comment, at
      the path resolved from that tag's text, and carries that comment's line. */
  lemma {:induction false} ReadIssuedByTag(cs: seq<Comment>, dir: string, lib: Libraries, k: int)
    requires 0 <= k < |AllReads(cs, dir, lib)|
    ensures exists i, j :: 0 <= i < |cs| && IssuedBy(AllReads(cs, dir, lib)[k], cs[i].tags, j, i, cs[i].line, dir, lib)
    decreases |cs|
  {
    var n := |cs| - 1;
    var prefix := cs[..n];
    var before := AllReads(prefix, dir, lib);
    var r := AllReads(cs, dir, lib);
    if k < |before| {
      ReadIssuedByTag(prefix, dir, lib, k);
      var i, j :| 0 <= i < |prefix| && IssuedBy(before[k], prefix[i].tags, j, i, prefix[i].line, dir, lib);
      assert prefix[i] == cs[i] && r[k] == before[k];
      assert IssuedBy(r[k], cs[i].tags, j, i, cs[i].line, dir, lib);
    } else {
      CommentReadIssuedByTag(n, cs[n].tags, cs[n].line, dir, lib, k - |before|);
      var j :| IssuedBy(CommentReads(n, cs[n].tags, cs[n].line, dir, lib)[k - |before|], cs[n].tags, j, n, cs[n].line, dir, lib);
      assert IssuedBy(r[k], cs[n].tags, j, n, cs[n].line, dir, lib);
    }
  }

  // ---------------------------------------------------------------------------
  // What `extract` guarantees.

  /** Blank content is a successful no-op: nothing is read, written or registered. */
  lemma BlankContentIsNoOp(s0: State, src: SourceInfo, options: Option<Options>, lib: Libraries, readFile: string -> ReadResult)
    requires IsBlank(src.content)
    ensures Run(s0, src, options, lib, readFile) == (Done, s0)
  {
    TrimEmptyIffBlank(src.content);
  }

  /** A parser failure on non-blank content is an `InvalidDoc` error carrying the
      source's path and the parser's message; nothing is changed. */
  lemma ParseErrorIsInvalidDoc(s0: State, src: SourceInfo, options: Option<Options>, lib: Libraries,
                               readFile: string -> ReadResult, message: string)
    requires !IsBlank(src.content)
    requires lib.parseComments(src.content, EffectiveOptions(options)) == ParseError(message)
    ensures Run(s0, src, options, lib, readFile) == (Failed(InvalidDoc(src.path, message)), s0)
  {
    TrimEmptyIffBlank(src.content);
  }

  /** On parsed comments the outcome is the first failing read, in issue
      order; failing that, the TypeError of flattening blocks that were never
      assigned; and otherwise success. */
  lemma OutcomeOfComments(s0: State, src: SourceInfo, options: Option<Options>, lib: Libraries,
                          readFile: string -> ReadResult, cs: seq<Comment>)
    requires !IsBlank(src.content)
    requires lib.parseComments(src.content, EffectiveOptions(options)) == Comments(cs)
    ensures var failure := FirstFailure(AllReads(cs, lib.dirname(src.absolutePath), lib), readFile, src.path);
      Run(s0, src, options, lib, readFile).0 ==
        if failure.Some? then Failed(failure.value)
        else if |cs| == 0 && s0.blocks.None? then Failed(BlocksUnset)
        else Done
  {
    TrimEmptyIffBlank(src.content);
    var opts := EffectiveOptions(options);
    SettleAllEffect(Joined(BuildAll(cs, opts.raw, lib), s0.deps, None),
                    AllReads(cs, lib.dirname(src.absolutePath), lib), readFile, src.path, lib);
  }

  /** `i` and `j` name an `@example-file` tag whose text is `text`, on a comment at `line`. */
  predicate ExampleFileTagAt(cs: seq<Comment>, i: int, j: int, text: string, line: int) {
    && 0 <= i < |cs| && 0 <= j < |cs[i].tags|
    && cs[i].tags[j].name == "example-file" && cs[i].tags[j].text == text && cs[i].line == line
  }

  lemma MissingFileRead(cs: seq<Comment>, dir: string, lib: Libraries, readFile: string -> ReadResult,
                        sourcePath: string, text: string, path: string, line: int)
    requires FirstFailure(AllReads(cs, dir, lib), readFile, sourcePath) == Some(ExampleFileNotFound(text, path, line))
    ensures path == sourcePath
    ensures exists i, j ::
      && ExampleFileTagAt(cs, i, j, text, line)
      && readFile(lib.resolve(dir, text)).Failure?
      && readFile(lib.resolve(dir, text)).error.code == EnoEnt
  {
    var pending := AllReads(cs, dir, lib);
    FirstFailureIsFirst(pending, readFile, sourcePath);
    var k :| 0 <= k < |pending| && FirstFailure(pending, readFile, sourcePath) == ReadError(pending[k], readFile(pending[k].path), sourcePath);
    ReadIssuedByTag(cs, dir, lib, k);
    var i, j :| 0 <= i < |cs| && IssuedBy(pending[k], cs[i].tags, j, i, cs[i].line, dir, lib);
    var res := readFile(pending[k].path);
    assert FirstFailure(pending, readFile, sourcePath) == ReadError(pending[k], res, sourcePath);
    assert res.Failure? && res.error.code == EnoEnt;
    assert ReadError(pending[k], res, sourcePath) == Some(ExampleFileNotFound(pending[k].tagText, sourcePath, pending[k].line));
    assert pending[k].tagText == text && pending[k].line == line;
    assert ExampleFileTagAt(cs, i, j, text, line);
  }

  /** A missing example file fails the extraction with an error naming the
      tag's raw text, the source's path and its comment's line; the tag is an
      `@example-file` tag of one of the comments, and reading its resolved path
      failed with code `ENOENT`. */
  lemma MissingExampleFile(s0: State, src: SourceInfo, options: Option<Options>, lib: Libraries,
                           readFile: string -> ReadResult, cs: seq<Comment>, text: string, path: string, line: int)
    requires !IsBlank(src.content)
    requires lib.parseComments(src.content, EffectiveOptions(options)) == Comments(cs)
    requires Run(s0, src, options, lib, readFile).0 == Failed(ExampleFileNotFound(text, path, line))
    ensures path == src.path
    ensures exists i, j ::
      && ExampleFileTagAt(cs, i, j, text, line)
      && readFile(lib.resolve(lib.dirname(src.absolutePath), text)).Failure?
      && readFile(lib.resolve(lib.dirname(src.absolutePath), text)).error.code == EnoEnt
  {
    OutcomeOfComments(s0, src, options, lib, readFile, cs);
    MissingFileRead(cs, lib.dirname(src.absolutePath), lib, readFile, src.path, text, path, line);
  }

  lemma OtherFailureRead(cs: seq<Comment>, dir: string, lib: Libraries, readFile: string -> ReadResult,
                         sourcePath: string, e: IoError)
    requires FirstFailure(AllReads(cs, dir, lib), readFile, sourcePath) == Some(ReadFailed(e))
    ensures e.code != EnoEnt
    ensures exists i, j :: 0 <= i < |cs| && 0 <= j < |cs[i].tags| && cs[i].tags[j].name == "example-file"
                        && readFile(lib.resolve(dir, cs[i].tags[j].text)) == Failure(e)
  {
    var pending := AllReads(cs, dir, lib);
    FirstFailureIsFirst(pending, readFile, sourcePath);
    var k :| 0 <= k < |pending| && FirstFailure(pending, readFile, sourcePath) == ReadError(pending[k], readFile(pending[k].path), sourcePath);
    ReadIssuedByTag(cs, dir, lib, k);
    var i, j :| 0 <= i < |cs| && IssuedBy(pending[k], cs[i].tags, j, i, cs[i].line, dir, lib);
    var res := readFile(pending[k].path);
    assert FirstFailure(pending, readFile, sourcePath) == ReadError(pending[k], res, sourcePath);
    assert res.Failure? && res.error == e;
    assert cs[i].tags[j].name == "example-file" && pending[k].path == lib.resolve(dir, cs[i].tags[j].text);
  }

  /** A read error passed on unchanged never has code `ENOENT`, and it is the
      error of reading the resolved path of an `@example-file` tag. */
  lemma OtherReadFailure(s0: State, src: SourceInfo, options: Option<Options>, lib: Libraries,
                         readFile: string -> ReadResult, cs: seq<Comment>, e: IoError)
    requires !IsBlank(src.content)
    requires lib.parseComments(src.content, EffectiveOptions(options)) == Comments(cs)
    requires Run(s0, src, options, lib, readFile).0 == Failed(ReadFailed(e))
    ensures e.code != EnoEnt
    ensures exists i, j :: 0 <= i < |cs| && 0 <= j < |cs[i].tags| && cs[i].tags[j].name == "example-file"
                        && readFile(lib.resolve(lib.dirname(src.absolutePath), cs[i].tags[j].text)) == Failure(e)
  {
    OutcomeOfComments(s0, src, options, lib, readFile, cs);
    OtherFailureRead(cs, lib.dirname(src.absolutePath), lib, readFile, src.path, e);
  }

  /** When the first read issued fails with code `ENOENT`, the extraction
      fails with the error naming that tag's text, the source's path and its
      comment's line, not with the reader's error. */
  lemma FirstReadMissing(s0: State, src: SourceInfo, options: Option<Options>, lib: Libraries,
                         readFile: string -> ReadResult, cs: seq<Comment>, e: IoError)
    requires !IsBlank(src.content)
    requires lib.parseComments(src.content, EffectiveOptions(options)) == Comments(cs)
    requires |AllReads(cs, lib.dirname(src.absolutePath), lib)| > 0
    requires readFile(AllReads(cs, lib.dirname(src.absolutePath), lib)[0].path) == Failure(e) && e.code == EnoEnt
    ensures var first := AllReads(cs, lib.dirname(src.absolutePath), lib)[0];
      Run(s0, src, options, lib, readFile).0 == Failed(ExampleFileNotFound(first.tagText, src.path, first.line))
  {
    OutcomeOfComments(s0, src, options, lib, readFile, cs);
  }

  /** Every `@example-file` tag of every comment issues a read of its resolved path. */
  lemma {:induction false} TagReadIssued(cs: seq<Comment>, dir: string, lib: Libraries, i: int, j: int)
    requires 0 <= i < |cs| && 0 <= j < |cs[i].tags| && cs[i].tags[j].name == "example-file"
    ensures PendingRead(i, lib.resolve(dir, cs[i].tags[j].text), cs[i].tags[j].text, cs[i].line) in AllReads(cs, dir, lib)
    decreases |cs|
  {
    var n := |cs| - 1;
    if i < n {
      assert cs[..n][i] == cs[i];
      TagReadIssued(cs[..n], dir, lib, i, j);
    } else {
      TagIssuesRead(n, cs[n].tags, cs[n].line, dir, lib, j);
    }
  }

  /** No read failure goes unnoticed: when the file of any `@example-file` tag
      cannot be read, the extraction fails with a read error. */
  lemma FailingFileFails(s0: State, src: SourceInfo, options: Option<Options>, lib: Libraries,
                         readFile: string -> ReadResult, cs: seq<Comment>, i: int, j: int)
    requires !IsBlank(src.content)
    requires lib.parseComments(src.content, EffectiveOptions(options)) == Comments(cs)
    requires 0 <= i < |cs| && 0 <= j < |cs[i].tags| && cs[i].tags[j].name == "example-file"
    requires !readFile(lib.resolve(lib.dirname(src.absolutePath), cs[i].tags[j].text)).Contents?
    ensures Run(s0, src, options, lib, readFile).0.Failed?
    ensures Run(s0, src, options, lib, readFile).0.error.ExampleFileNotFound? || Run(s0, src, options, lib, readFile).0.error.ReadFailed?
  {
    var dir := lib.dirname(src.absolutePath);
    var pending := AllReads(cs, dir, lib);
    OutcomeOfComments(s0, src, options, lib, readFile, cs);
    TagReadIssued(cs, dir, lib, i, j);
    FirstFailureIsFirst(pending, readFile, src.path);
    var k :| 0 <= k < |pending| && pending[k] == PendingRead(i, lib.resolve(dir, cs[i].tags[j].text), cs[i].tags[j].text, cs[i].line);
    var f := FirstFailure(pending, readFile, src.path);
    assert f.Some?;
    var k' :| 0 <= k' < |pending| && f == ReadError(pending[k'], readFile(pending[k'].path), src.path);
    assert f.value.ExampleFileNotFound? || f.value.ReadFailed?;
  }

  /** The source's attributes: only the first comment's tags write them, every
      one of its tags whatever its name, each under its name with its raw text;
      the last tag of a name wins, and other keys keep their old values. This
      holds on every outcome once the comments are parsed. */
  lemma SourceAttrsFromFirstComment(s0: State, src: SourceInfo, options: Option<Options>, lib: Libraries,
                                    readFile: string -> ReadResult, cs: seq<Comment>, key: string)
    requires !IsBlank(src.content)
    requires lib.parseComments(src.content, EffectiveOptions(options)) == Comments(cs)
    ensures var attrs := Run(s0, src, options, lib, readFile).1.attrs;
      && (key in attrs <==> key in s0.attrs || (|cs| > 0 && exists j :: 0 <= j < |cs[0].tags| && cs[0].tags[j].name == key))
      && (|cs| > 0 && (exists j :: 0 <= j < |cs[0].tags| && cs[0].tags[j].name == key) ==> exists j ::
            && 0 <= j < |cs[0].tags| && cs[0].tags[j].name == key
            && (forall l :: j < l < |cs[0].tags| ==> cs[0].tags[l].name != key)
            && attrs[key] == cs[0].tags[j].text)
      && ((|cs| == 0 || forall j :: 0 <= j < |cs[0].tags| ==> cs[0].tags[j].name != key) ==>
            key in s0.attrs ==> attrs[key] == s0.attrs[key])
  {
    TrimEmptyIffBlank(src.content);
    if |cs| > 0 {
      PromotedAttrs(s0.attrs, cs[0].tags, key);
    }
  }

  /** Without comments the source keeps its attributes and dependencies; blocks
      that were never assigned stay unassigned and make the flattening step
      fail, and blocks already there are only flattened. */
  lemma NoComments(s0: State, src: SourceInfo, options: Option<Options>, lib: Libraries, readFile: string -> ReadResult)
    requires !IsBlank(src.content)
    requires lib.parseComments(src.content, EffectiveOptions(options)) == Comments([])
    ensures var (out, s) := Run(s0, src, options, lib, readFile);
      && s.attrs == s0.attrs && s.deps == s0.deps
      && (s0.blocks.None? ==> out == Failed(BlocksUnset) && s.blocks.None?)
      && (s0.blocks.Some? ==> out == Done && s.blocks == Some(FlattenAll(s0.blocks.value)))
  {
    TrimEmptyIffBlank(src.content);
  }

  /** With comments the blocks are assigned on every outcome, one per comment in
      comment order: block i holds comment i's code (or the empty string), its
      description's full text exactly when it has a description, and the block
      attributes of its tags. */
  lemma BlocksFollowComments(s0: State, src: SourceInfo, options: Option<Options>, lib: Libraries,
                             readFile: string -> ReadResult, cs: seq<Comment>)
    requires !IsBlank(src.content)
    requires lib.parseComments(src.content, EffectiveOptions(options)) == Comments(cs)
    requires |cs| > 0
    ensures var s := Run(s0, src, options, lib, readFile).1;
      && s.blocks.Some? && |s.blocks.value| == |cs|
      && forall i :: 0 <= i < |cs| ==>
           && (cs[i].code.Some? ==> s.blocks.value[i].content == cs[i].code.value)
           && (cs[i].code.None? ==> s.blocks.value[i].content == "")
           && (s.blocks.value[i].description.Some? <==> cs[i].description.Some?)
           && (cs[i].description.Some? ==> s.blocks.value[i].description.value == cs[i].description.value.full)
           && s.blocks.value[i].attrs == ApplyWrites(map[], cs[i].tags, BlockAttrs(EffectiveOptions(options).raw))
  {
    TrimEmptyIffBlank(src.content);
    var opts := EffectiveOptions(options);
    var built := BuildAll(cs, opts.raw, lib);
    SettleAllEffect(Joined(built, s0.deps, None), AllReads(cs, lib.dirname(src.absolutePath), lib), readFile, src.path, lib);
  }

  /** A successful extraction with comments leaves every block's examples flat:
      its inline examples in tag order, then the examples of its example files
      in tag order; and it registers the resolved path of every example file
      once, in issue order. */
  lemma SuccessfulExtraction(s0: State, src: SourceInfo, options: Option<Options>, lib: Libraries,
                             readFile: string -> ReadResult, cs: seq<Comment>)
    requires !IsBlank(src.content)
    requires lib.parseComments(src.content, EffectiveOptions(options)) == Comments(cs)
    requires |cs| > 0
    requires Run(s0, src, options, lib, readFile).0 == Done
    ensures var s := Run(s0, src, options, lib, readFile).1;
      var dir := lib.dirname(src.absolutePath);
      && s.blocks.Some? && |s.blocks.value| == |cs|
      && (forall i :: 0 <= i < |cs| ==>
            && IsFlat(s.blocks.value[i].examples)
            && Flatten(s.blocks.value[i].examples) == ExpectedExamples(cs[i], dir, readFile, lib))
      && s.deps == s0.deps + ReadPaths(AllReads(cs, dir, lib))
  {
    TrimEmptyIffBlank(src.content);
    var opts := EffectiveOptions(options);
    var dir := lib.dirname(src.absolutePath);
    var pending := AllReads(cs, dir, lib);
    var built := BuildAll(cs, opts.raw, lib);
    var j0 := Joined(built, s0.deps, None);
    SettleAllEffect(j0, pending, readFile, src.path, lib);
    FirstFailureIsFirst(pending, readFile, src.path);
    AllSucceeded(pending, readFile);
    var joined := SettleAll(j0, pending, readFile, src.path, lib);
    forall i | 0 <= i < |cs|
      ensures Flatten(FlattenBlock(joined.blocks[i]).examples) == ExpectedExamples(cs[i], dir, readFile, lib)
    {
      BlockFileEntries(cs, i, dir, readFile, lib);
      CommentFileEntries(i, cs[i].tags, cs[i].line, dir, readFile, lib);
      FlattenAppend(built[i].examples, FileEntries(pending, i, readFile, lib));
      FlattenSingles(InlineAll(cs[i].tags, lib));
    }
  }
}
