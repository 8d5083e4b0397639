/** `extract` itself: a method of the loader that fills in a source in place.
    It is proved to leave exactly the result and the state `Extraction.Run`
    describes, so every lemma about `Run` is a property of this method. */
module Extractor {
  import opened Docs
  import opened JsString
  import opened Dispatch
  import opened Join
  import opened Extraction

  /** A file under documentation. `attrs` and `blocks` are filled in by `extract`;
      `blocks` is `None` until it is assigned. */
  class Source {
    const path: string
    const absolutePath: string
    const content: string
    var attrs: map<string, string>
    var blocks: Option<seq<CodeBlock>>

    constructor (path: string, absolutePath: string, content: string)
      ensures this.path == path && this.absolutePath == absolutePath && this.content == content
      ensures attrs == map[] && blocks == None
    {
      this.path := path;
      this.absolutePath := absolutePath;
      this.content := content;
      attrs := map[];
      blocks := None;
    }

    function Info(): SourceInfo {
      SourceInfo(path, absolutePath, content)
    }
  }

  /** The loader context `extract` runs in: it reads files and records the
      files the output depends on. */
  class Loader {
    const readFile: string -> ReadResult
    var dependencies: seq<string>

    constructor (readFile: string -> ReadResult)
      ensures this.readFile == readFile && dependencies == []
    {
      this.readFile := readFile;
      dependencies := [];
    }

    method Extract(source: Source, options: Option<Options>, lib: Libraries) returns (r: Outcome)
      modifies this, source
      ensures (r, State(source.attrs, source.blocks, dependencies))
           == Run(State(old(source.attrs), old(source.blocks), old(dependencies)), source.Info(), options, lib, readFile)
    {
      var opts := EffectiveOptions(options);
      if Trim(source.content) == "" {
        return Done;
      }
      var parsed := lib.parseComments(source.content, opts);
      if parsed.ParseError? {
        return Failed(InvalidDoc(source.path, parsed.message));
      }
      var comments := parsed.comments;
      var pending := BuildBlocks(source, comments, opts.raw, lib);
      var failure := SettleReads(source, pending, lib);
      if failure.Some? {
        return Failed(failure.value);
      }
      if source.blocks.None? {
        return Failed(BlocksUnset);
      }
      FlattenBlocks(source);
      return Done;
    }

    /** The walk over the parsed comments: with at least one comment the
        source's blocks are reset and get one block per comment, in order, and
        the first comment's tags are promoted to the source's attributes. The
        reads issued are returned in issue order. */
    method BuildBlocks(source: Source, comments: seq<Comment>, raw: bool, lib: Libraries) returns (pending: seq<PendingRead>)
      modifies source
      ensures source.blocks == if |comments| > 0 then Some(BuildAll(comments, raw, lib)) else old(source.blocks)
      ensures source.attrs == if |comments| > 0 then ApplyWrites(old(source.attrs), comments[0].tags, SourceAttrs) else old(source.attrs)
      ensures pending == AllReads(comments, lib.dirname(source.absolutePath), lib)
    {
      if |comments| > 0 {
        source.blocks := Some([]);
      }
      ghost var dir := lib.dirname(source.absolutePath);
      ghost var promoted := if |comments| > 0 then ApplyWrites(old(source.attrs), comments[0].tags, SourceAttrs) else old(source.attrs);
      pending := [];
      assert BuildAll(comments[..0], raw, lib) == [];

      var i := 0;
      while i < |comments|
        invariant 0 <= i <= |comments|
        invariant source.blocks == if |comments| > 0 then Some(BuildAll(comments[..i], raw, lib)) else old(source.blocks)
        invariant source.attrs == if i > 0 then promoted else old(source.attrs)
        invariant pending == AllReads(comments[..i], dir, lib)
      {
        CommentStep(comments, i, raw, dir, lib);
        var issued := AddBlock(source, comments[i], i, raw, lib);
        pending := pending + issued;
        i := i + 1;
      }
      assert comments[..|comments|] == comments;
    }

    /** The work `extract` does for the comment at `index`: promote its tags to
        the source when it is the first, dispatch each tag, push its block and
        hand back the example-file reads it issued, in tag order. */
    method AddBlock(source: Source, comment: Comment, index: nat, raw: bool, lib: Libraries) returns (issued: seq<PendingRead>)
      requires source.blocks.Some?
      modifies source
      ensures source.blocks == Some(old(source.blocks.value) + [BuildBlock(comment, raw, lib)])
      ensures source.attrs == if index == 0 then ApplyWrites(old(source.attrs), comment.tags, SourceAttrs) else old(source.attrs)
      ensures issued == CommentReads(index, comment.tags, comment.line, lib.dirname(source.absolutePath), lib)
    {
      var isFirstComment := index == 0;
      var content := comment.code.GetOr("");
      var description: Option<string> := None;
      if comment.description.Some? {
        description := Some(comment.description.value.full);
      }
      var attrs: map<string, string> := map[];
      var examples: seq<Example> := [];
      var tags := comment.tags;
      issued := [];
      ghost var dir := lib.dirname(source.absolutePath);

      var j := 0;
      while j < |tags|
        invariant 0 <= j <= |tags|
        invariant attrs == ApplyWrites(map[], tags[..j], BlockAttrs(raw))
        invariant examples == InlineAll(tags[..j], lib)
        invariant issued == CommentReads(index, tags[..j], comment.line, dir, lib)
        invariant source.attrs == if isFirstComment then ApplyWrites(old(source.attrs), tags[..j], SourceAttrs) else old(source.attrs)
        invariant source.blocks == old(source.blocks)
      {
        var tag := tags[j];
        TagStep(tags, j, old(source.attrs), raw, index, comment.line, dir, lib);
        if isFirstComment {
          source.attrs := source.attrs[tag.name := tag.text];
        }
        attrs, examples, issued := DispatchTag(source, tag, index, comment.line, raw, lib, attrs, examples, issued);
        j := j + 1;
      }
      assert tags[..|tags|] == tags;
      source.blocks := Some(source.blocks.value + [CodeBlock(content, description, attrs, Singles(examples))]);
    }

    /** The switch on one tag's name: a description tag sets the block's
        `description`, an `@example` tag adds its inline examples one by one,
        an `@example-file` tag issues a read of the file resolved from its text,
        and any other tag sets the block attribute of its own name. */
    method DispatchTag(source: Source, tag: Tag, index: nat, line: int, raw: bool, lib: Libraries,
                       attrs: map<string, string>, examples: seq<Example>, issued: seq<PendingRead>)
      returns (attrs': map<string, string>, examples': seq<Example>, issued': seq<PendingRead>)
      ensures attrs' == match WriteOf(tag, BlockAttrs(raw)) case None => attrs case Some(w) => attrs[w.key := w.value]
      ensures examples' == examples + InlineExamples(tag, lib)
      ensures issued' == issued + TagReads(index, tag, line, lib.dirname(source.absolutePath), lib)
    {
      attrs', examples', issued' := attrs, examples, issued;
      match BranchOf(tag.name) {
        case Generic =>
          attrs' := attrs[tag.name := tag.text];
        case DescriptionTag =>
          attrs' := attrs["description" := if raw then tag.full else tag.html];
        case ExampleTag =>
          var found := lib.parseExamples(tag.text);
          if |found| == 0 {
            found := found + [Literal(tag.text)];
          }
          examples' := examples + found;
        case ExampleFileTag =>
          var filepath := lib.resolve(lib.dirname(source.absolutePath), tag.text);
          issued' := issued + [PendingRead(index, filepath, tag.text, line)];
      }
    }

    /** The join on the issued reads, taken to settle one after the other in
        issue order: each success registers its path and pushes its parsed
        examples onto its block as one entry; the first failure is returned. */
    method SettleReads(source: Source, pending: seq<PendingRead>, lib: Libraries) returns (failure: Option<Error>)
      requires ReadsInRange(pending, if source.blocks.Some? then |source.blocks.value| else 0)
      modifies this, source
      ensures source.attrs == old(source.attrs)
      ensures old(source.blocks).None? ==> source.blocks.None? && dependencies == old(dependencies) && failure.None?
      ensures old(source.blocks).Some? ==>
        var joined := SettleAll(Joined(old(source.blocks).value, old(dependencies), None), pending, readFile, source.path, lib);
        source.blocks == Some(joined.blocks) && dependencies == joined.deps && failure == joined.failure
    {
      failure := None;
      if source.blocks.None? {
        return;
      }
      ghost var start := Joined(source.blocks.value, dependencies, None);
      var k := 0;
      while k < |pending|
        invariant 0 <= k <= |pending|
        invariant var joined := SettleAll(start, pending[..k], readFile, source.path, lib);
          source.blocks == Some(joined.blocks) && dependencies == joined.deps && failure == joined.failure
        invariant source.attrs == old(source.attrs)
      {
        var p := pending[k];
        assert pending[..k + 1][..k] == pending[..k];
        match readFile(p.path) {
          case Contents(text) =>
            dependencies := dependencies + [p.path];
            var block := source.blocks.value[p.block];
            source.blocks := Some(source.blocks.value[p.block := block.(examples := block.examples + [Many(lib.parseExamples(text))])]);
          case Failure(e) =>
            if failure.None? {
              if e.code == EnoEnt {
                failure := Some(ExampleFileNotFound(p.tagText, source.path, p.line));
              } else {
                failure := Some(ReadFailed(e));
              }
            }
        }
        k := k + 1;
      }
      assert pending[..|pending|] == pending;
    }

    /** The last step: every block's examples flattened one level, in place. */
    method FlattenBlocks(source: Source)
      requires source.blocks.Some?
      modifies source
      ensures source.blocks == Some(FlattenAll(old(source.blocks).value))
      ensures source.attrs == old(source.attrs)
    {
      ghost var settled := source.blocks.value;
      var b := 0;
      while b < |source.blocks.value|
        invariant 0 <= b <= |settled|
        invariant source.blocks.Some? && |source.blocks.value| == |settled|
        invariant forall l :: 0 <= l < b ==> source.blocks.value[l] == FlattenBlock(settled[l])
        invariant forall l :: b <= l < |settled| ==> source.blocks.value[l] == settled[l]
        invariant source.attrs == old(source.attrs)
      {
        var block := source.blocks.value[b];
        FlattenSingles(Flatten(block.examples));
        source.blocks := Some(source.blocks.value[b := block.(examples := Singles(Flatten(block.examples)))]);
        b := b + 1;
      }
      assert source.blocks.value == FlattenAll(settled);
    }
  }
}
