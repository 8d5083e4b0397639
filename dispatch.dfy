/** What one doc comment turns into, tag by tag: the attribute writes, the
    inline examples, and the example-file reads it issues. These are the
    specification functions the extraction loop is proved against. */
module Dispatch {
  import opened Docs

  /** The four arms of the switch on a tag's name. */
  datatype Branch = Generic | DescriptionTag | ExampleTag | ExampleFileTag

  function BranchOf(name: string): Branch {
    if name == "description" then DescriptionTag
    else if name == "example" then ExampleTag
    else if name == "example-file" then ExampleFileTag
    else Generic
  }

  /** The tag names that do not write an attribute of their own name on a block. */
  predicate IsExampleName(name: string) {
    name == "example" || name == "example-file"
  }

  /** The two attribute maps a tag can write: the source's (every tag of the
      first comment) and its block's (dispatched by name). */
  datatype Target = SourceAttrs | BlockAttrs(raw: bool)

  datatype Write = Write(key: string, value: string)

  /** The write a tag makes on a target, if any. */
  function WriteOf(tag: Tag, target: Target): Option<Write> {
    match target
    case SourceAttrs => Some(Write(tag.name, tag.text))
    case BlockAttrs(raw) =>
      match BranchOf(tag.name)
      case Generic => Some(Write(tag.name, tag.text))
      case DescriptionTag => Some(Write("description", if raw then tag.full else tag.html))
      case ExampleTag => None
      case ExampleFileTag => None
  }

  predicate Writes(tag: Tag, target: Target, key: string) {
    WriteOf(tag, target).Some? && WriteOf(tag, target).value.key == key
  }

  /** The map after the writes of `tags`, made one after the other onto `m`. */
  function ApplyWrites(m: map<string, string>, tags: seq<Tag>, target: Target): map<string, string>
    decreases |tags|
  {
    if tags == [] then m
    else
      var before := ApplyWrites(m, tags[..|tags| - 1], target);
      match WriteOf(tags[|tags| - 1], target)
      case None => before
      case Some(w) => before[w.key := w.value]
  }

  /** `i` is the last of `tags` that writes `key`. */
  predicate LastWriter(tags: seq<Tag>, target: Target, key: string, i: int) {
    && 0 <= i < |tags|
    && Writes(tags[i], target, key)
    && forall j :: i < j < |tags| ==> !Writes(tags[j], target, key)
  }

  /** The index of the last of `tags` that writes `key`, or -1 when none does. */
  function LastWrite(tags: seq<Tag>, target: Target, key: string): (i: int)
    ensures -1 <= i < |tags|
    ensures i >= 0 ==> LastWriter(tags, target, key, i)
    ensures i < 0 ==> forall j :: 0 <= j < |tags| ==> !Writes(tags[j], target, key)
    decreases |tags|
  {
    if tags == [] then -1
    else if Writes(tags[|tags| - 1], target, key) then |tags| - 1
    else LastWrite(tags[..|tags| - 1], target, key)
  }

  /** Successive writes: a key is present when it was present or some tag
      writes it; its value is then the last writer's, and otherwise the old one. */
  lemma {:induction false} LastWriteWins(m: map<string, string>, tags: seq<Tag>, target: Target, key: string)
    ensures var r := ApplyWrites(m, tags, target);
      var i := LastWrite(tags, target, key);
      && (key in r <==> key in m || i >= 0)
      && (i >= 0 ==> r[key] == WriteOf(tags[i], target).value.value)
      && (i < 0 && key in m ==> r[key] == m[key])
    decreases |tags|
  {
    if tags != [] {
      var n := |tags| - 1;
      LastWriteWins(m, tags[..n], target, key);
      var i := LastWrite(tags[..n], target, key);
      if !Writes(tags[n], target, key) && i >= 0 {
        assert tags[..n][i] == tags[i];
      }
    }
  }

  /** The attributes of a block: `description` holds the last description tag,
      in its raw or its html rendering; a tag named `example` or `example-file`
      writes nothing; every other tag writes its own name, and the last one wins. */
  lemma BlockAttrsByName(tags: seq<Tag>, raw: bool, key: string)
    ensures var r := ApplyWrites(map[], tags, BlockAttrs(raw));
      && (key in r <==> !IsExampleName(key) && exists i :: 0 <= i < |tags| && tags[i].name == key)
      && (key in r ==> exists i ::
            && 0 <= i < |tags| && tags[i].name == key
            && (forall j :: i < j < |tags| ==> tags[j].name != key)
            && r[key] == if key == "description" then (if raw then tags[i].full else tags[i].html) else tags[i].text)
  {
    var target := BlockAttrs(raw);
    assert forall t: Tag :: Writes(t, target, key) <==> t.name == key && !IsExampleName(key);
    LastWriteWins(map[], tags, target, key);
    var i := LastWrite(tags, target, key);
    if i >= 0 {
      assert tags[i].name == key;
    }
  }

  /** The attributes a source gets from the tags of its first comment: every
      tag, whatever its name, writes its text under its name; the last one wins
      and keys no tag names keep their old value. */
  lemma PromotedAttrs(m: map<string, string>, tags: seq<Tag>, key: string)
    ensures var r := ApplyWrites(m, tags, SourceAttrs);
      && (key in r <==> key in m || exists i :: 0 <= i < |tags| && tags[i].name == key)
      && ((exists i :: 0 <= i < |tags| && tags[i].name == key) ==> exists i ::
            && 0 <= i < |tags| && tags[i].name == key
            && (forall j :: i < j < |tags| ==> tags[j].name != key)
            && r[key] == tags[i].text)
      && ((forall i :: 0 <= i < |tags| ==> tags[i].name != key) ==> key in m ==> r[key] == m[key])
  {
    assert forall t: Tag :: Writes(t, SourceAttrs, key) <==> t.name == key;
    LastWriteWins(m, tags, SourceAttrs, key);
    var i := LastWrite(tags, SourceAttrs, key);
    if i >= 0 {
      assert tags[i].name == key;
    }
  }

  /** The examples an `@example` tag adds: what the example parser finds in its
      text, or, when it finds none, one literal example holding that text. Any
      other tag adds none. */
  function InlineExamples(tag: Tag, lib: Libraries): (r: seq<Example>)
    ensures |r| > 0 <==> tag.name == "example"
    ensures tag.name == "example" && |lib.parseExamples(tag.text)| == 0 ==> r == [Literal(tag.text)]
    ensures tag.name == "example" && |lib.parseExamples(tag.text)| > 0 ==> r == lib.parseExamples(tag.text)
  {
    if BranchOf(tag.name) == ExampleTag then
      var parsed := lib.parseExamples(tag.text);
      if |parsed| == 0 then [Literal(tag.text)] else parsed
    else []
  }

  /** The inline examples of `tags`, in tag order. */
  function InlineAll(tags: seq<Tag>, lib: Libraries): seq<Example>
    decreases |tags|
  {
    if tags == [] then [] else InlineAll(tags[..|tags| - 1], lib) + InlineExamples(tags[|tags| - 1], lib)
  }

  /** A sequence of examples appended element by element, as `Array.prototype.concat` spreads an array. */
  function Singles(exs: seq<Example>): seq<Entry> {
    seq(|exs|, i requires 0 <= i < |exs| => One(exs[i]))
  }

  lemma SinglesAppend(a: seq<Example>, b: seq<Example>)
    ensures Singles(a + b) == Singles(a) + Singles(b)
  {
  }

  /** An example-file read as it is issued: the block it belongs to, the
      resolved path, the raw tag text and the comment's line. */
  datatype PendingRead = PendingRead(block: nat, path: string, tagText: string, line: int)

  /** The read an `@example-file` tag issues, resolved against `dir`; other tags issue none. */
  function TagReads(block: nat, tag: Tag, line: int, dir: string, lib: Libraries): seq<PendingRead> {
    if BranchOf(tag.name) == ExampleFileTag then [PendingRead(block, lib.resolve(dir, tag.text), tag.text, line)] else []
  }

  /** The reads of one comment's tags, in tag order; all belong to its block. */
  function CommentReads(block: nat, tags: seq<Tag>, line: int, dir: string, lib: Libraries): (r: seq<PendingRead>)
    ensures forall k :: 0 <= k < |r| ==> r[k].block == block && r[k].line == line
    decreases |tags|
  {
    if tags == [] then []
    else CommentReads(block, tags[..|tags| - 1], line, dir, lib) + TagReads(block, tags[|tags| - 1], line, dir, lib)
  }

  /** The read that tag `j` of `tags` issues, when it is an `@example-file` tag. */
  predicate IssuedBy(read: PendingRead, tags: seq<Tag>, j: int, block: nat, line: int, dir: string, lib: Libraries) {
    && 0 <= j < |tags| && tags[j].name == "example-file"
    && read == PendingRead(block, lib.resolve(dir, tags[j].text), tags[j].text, line)
  }

  /** Every read a comment issues comes from an `@example-file` tag of it, at
      the path resolved from that tag's text. */
  lemma {:induction false} CommentReadIssuedByTag(block: nat, tags: seq<Tag>, line: int, dir: string, lib: Libraries, k: int)
    requires 0 <= k < |CommentReads(block, tags, line, dir, lib)|
    ensures exists j :: IssuedBy(CommentReads(block, tags, line, dir, lib)[k], tags, j, block, line, dir, lib)
    decreases |tags|
  {
    var n := |tags| - 1;
    var prefix := tags[..n];
    var before := CommentReads(block, prefix, line, dir, lib);
    var r := CommentReads(block, tags, line, dir, lib);
    assert r == before + TagReads(block, tags[n], line, dir, lib);
    if k < |before| {
      CommentReadIssuedByTag(block, prefix, line, dir, lib, k);
      var j :| IssuedBy(before[k], prefix, j, block, line, dir, lib);
      assert prefix[j] == tags[j];
      assert IssuedBy(r[k], tags, j, block, line, dir, lib);
    } else {
      assert IssuedBy(r[k], tags, n, block, line, dir, lib);
    }
  }

  /** Every `@example-file` tag of a comment issues a read, at the path
      resolved from its text. */
  lemma {:induction false} TagIssuesRead(block: nat, tags: seq<Tag>, line: int, dir: string, lib: Libraries, j: int)
    requires 0 <= j < |tags| && tags[j].name == "example-file"
    ensures PendingRead(block, lib.resolve(dir, tags[j].text), tags[j].text, line) in CommentReads(block, tags, line, dir, lib)
    decreases |tags|
  {
    var n := |tags| - 1;
    if j < n {
      var prefix := tags[..n];
      assert prefix[j] == tags[j];
      TagIssuesRead(block, prefix, line, dir, lib, j);
    }
  }

  /** One more tag, as the tag loop takes it: each per-comment function of the
      first `j + 1` tags extends its value on the first `j` by tag `j` alone. */
  lemma TagStep(tags: seq<Tag>, j: nat, m: map<string, string>, raw: bool, block: nat, line: int, dir: string, lib: Libraries)
    requires j < |tags|
    ensures ApplyWrites(map[], tags[..j + 1], BlockAttrs(raw)) ==
      match WriteOf(tags[j], BlockAttrs(raw))
      case None => ApplyWrites(map[], tags[..j], BlockAttrs(raw))
      case Some(w) => ApplyWrites(map[], tags[..j], BlockAttrs(raw))[w.key := w.value]
    ensures ApplyWrites(m, tags[..j + 1], SourceAttrs) == ApplyWrites(m, tags[..j], SourceAttrs)[tags[j].name := tags[j].text]
    ensures InlineAll(tags[..j + 1], lib) == InlineAll(tags[..j], lib) + InlineExamples(tags[j], lib)
    ensures CommentReads(block, tags[..j + 1], line, dir, lib) == CommentReads(block, tags[..j], line, dir, lib) + TagReads(block, tags[j], line, dir, lib)
  {
    assert tags[..j + 1][..j] == tags[..j];
  }

  /** The block one comment becomes before its example files are read: its
      code (or the empty string), its description's full text when it has one,
      the block attributes of its tags, and its inline examples one entry each. */
  function BuildBlock(c: Comment, raw: bool, lib: Libraries): CodeBlock {
    CodeBlock(
      c.code.GetOr(""),
      match c.description case Some(d) => Some(d.full) case None => None,
      ApplyWrites(map[], c.tags, BlockAttrs(raw)),
      Singles(InlineAll(c.tags, lib)))
  }
}
