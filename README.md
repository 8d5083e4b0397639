# docpack jsdoc extractor, modelled in Dafny

This project models `extract(source, options)`, the comment-to-metadata step
of the docpack JSDoc loader. It is given a source file. When the content is
not blank it:

- parses the doc comments;
- builds one code block per comment, holding the comment's code, its
  description and the attributes of its tags;
- promotes every tag of the first comment to the source's own attributes;
- sends each tag to one of four branches: a generic attribute write, the
  `description` tag (raw or html rendering), the `example` tag (parsed
  examples, or one literal example when none parse), or the `example-file`
  tag (a file read, a dependency registration and a nested list of parsed
  examples);
- waits for all file reads, then flattens each block's examples one level.

Layout:

- `docs.dfy` (`Docs`): the records the extractor handles: tags, comments,
  examples, code blocks, options, read results, errors and the injected
  collaborators.
- `jsstring.dfy` (`JsString`): `String.prototype.trim` and the blank-content
  test.
- `dispatch.dfy` (`Dispatch`): what one comment turns into, tag by tag:
  attribute writes, inline examples and issued reads.
- `join.dfy` (`Join`): the reads settling, and the final flatten.
- `extraction.dfy` (`Extraction`): `Run`, the whole of `extract` as a
  function of the state before the call, and the lemmas stating what
  `extract` guarantees.
- `extractor.dfy` (`Extractor`): `extract` itself. It is a method of the
  loader (`Loader`, holding the file reader and the dependency list). It
  mutates a `Source` object in place, with nested loops over comments and
  tags, a loop over the reads and a final loop over the blocks. Its
  postcondition says the result and the new state are exactly what `Run`
  gives, so every lemma about `Run` holds of the method.

Three things are injected, because the code calls into libraries that are not
part of this model:

- The comment parser (`dox`) and the XML example parser are total functions.
  The comment parser returns comment records or an error.
- `path.dirname` and `path.resolve` are abstract functions on strings.
- The loader's `readFile` is a function from a path to either the file's
  text or the error the read rejects with (Node's error code and message).
  `addDependency` appends to `Loader.dependencies`.

Three behaviours of the code that are easy to miss:

- **Content that is not blank but holds no doc comment, with `source.blocks`
  never assigned.** `blocks` stays undefined, so `source.blocks.forEach` in
  the final step throws. The model reports this as the error `BlocksUnset`
  (`Extraction.NoComments`). When `blocks` was assigned before the call, the
  existing blocks are only flattened.
- **Order of a block's examples.** A file's examples are pushed when its read
  completes, which is after every inline `@example` of the block, not in the
  tag's position. So a block's examples are all its inline examples in tag
  order, then all its file examples in tag order
  (`Extraction.SuccessfulExtraction`).
- **Reads still settle after one has failed.** The code does not cancel
  them. Every successful read still registers its dependency and pushes its
  entry. The error reported is the first failure in issue order
  (`Join.SettleAllEffect`, `Join.FirstFailureIsFirst`).

## Model

| member | source | states |
|---|---|---|
| JsString.TrimEmptyIffBlank | packages/docpack-jsdoc-extractor/lib/extractor.js:19 | the trimmed content is empty exactly when every character is JavaScript whitespace |
| JsString.TrimIsTrimmed | packages/docpack-jsdoc-extractor/lib/extractor.js:19 | trim keeps one contiguous slice of the content, with only whitespace cut from either side and no whitespace left at either end |
| Extraction.BlankContentIsNoOp | packages/docpack-jsdoc-extractor/lib/extractor.js:19-26 | blank content succeeds and leaves attributes, blocks and dependencies exactly as they were |
| Extraction.ParseErrorIsInvalidDoc | packages/docpack-jsdoc-extractor/lib/extractor.js:28-33 | a parser failure gives the error InvalidDoc carrying the source's path and the parser's message; blocks, attributes and dependencies are unchanged |
| Extraction.NoComments | packages/docpack-jsdoc-extractor/lib/extractor.js:35-37 | with no comments, attributes and dependencies are unchanged and blocks is not assigned; unset blocks make the final step fail, and existing blocks are only flattened |
| Extraction.BlocksFollowComments | packages/docpack-jsdoc-extractor/lib/extractor.js:35-46 | with comments, blocks is assigned with one block per comment in order; block i holds comment i's code or "", its description's full text exactly when it has one, and its tags' block attributes |
| Dispatch.LastWriteWins | packages/docpack-jsdoc-extractor/lib/extractor.js:55-66 | after successive writes, a key is present iff it was present before or some tag writes it; its value is the last writer's, and otherwise the old one |
| Dispatch.BlockAttrsByName | packages/docpack-jsdoc-extractor/lib/extractor.js:60-67 | a block attribute exists exactly for the names of its tags other than example and example-file; description holds the last description tag's full or html text as raw says, and any other key holds the last tag of that name's text |
| Dispatch.PromotedAttrs | packages/docpack-jsdoc-extractor/lib/extractor.js:55-57 | every tag, whatever its name, writes its text under its name; the last tag of a name wins and other keys keep their value |
| Extraction.SourceAttrsFromFirstComment | packages/docpack-jsdoc-extractor/lib/extractor.js:39-57 | on every outcome after parsing, the source's attributes change only through the first comment's tags, each under its name with its raw text, the last occurrence winning |
| Dispatch.InlineExamples | packages/docpack-jsdoc-extractor/lib/extractor.js:69-75 | an example tag adds what the parser finds in its text, or exactly one literal example holding that text when it finds none; other tags add none |
| Dispatch.CommentReadIssuedByTag | packages/docpack-jsdoc-extractor/lib/extractor.js:78-96 | every read a comment issues comes from one of its example-file tags, at the path resolved from the source's directory and the tag's text |
| Dispatch.TagIssuesRead | packages/docpack-jsdoc-extractor/lib/extractor.js:78-96 | every example-file tag of a comment issues a read of its resolved path |
| Extraction.ReadIssuedByTag | packages/docpack-jsdoc-extractor/lib/extractor.js:39-96 | every read issued during the comment walk comes from an example-file tag of some comment and carries that comment's index and line |
| Extraction.TagReadIssued | packages/docpack-jsdoc-extractor/lib/extractor.js:39-96 | every example-file tag of every comment issues a read tagged with its comment's index and line |
| Extraction.BlockFileEntries | packages/docpack-jsdoc-extractor/lib/extractor.js:81-84 | of all reads issued, the only ones that push onto block b are comment b's |
| Extraction.TagFileEntries | packages/docpack-jsdoc-extractor/lib/extractor.js:78-84 | flattened, the entries one example-file tag's read pushes onto its block are the examples parsed from its file, or none when the read fails |
| Extraction.CommentFileEntries | packages/docpack-jsdoc-extractor/lib/extractor.js:78-84 | flattened, the entries a comment's successful reads push are its files' examples in tag order |
| Join.SettleAllEffect | packages/docpack-jsdoc-extractor/lib/extractor.js:81-96 | once all reads settle, each block gains one nested entry per successful read of it, in issue order, after its inline examples; every successful path is registered once in issue order; the error kept is the first failing read's |
| Join.FirstFailureIsFirst | packages/docpack-jsdoc-extractor/lib/extractor.js:86-94 | there is no failure exactly when every read succeeds; otherwise the failure is some read's error, and every read issued before it succeeded |
| Join.AllSucceeded | packages/docpack-jsdoc-extractor/lib/extractor.js:83 | when every read succeeds, every path read is registered, in issue order |
| Extraction.OutcomeOfComments | packages/docpack-jsdoc-extractor/lib/extractor.js:106-113 | after parsing, the outcome is the first failing read's error; failing that, BlocksUnset when there are no comments and blocks was never assigned; otherwise success |
| Join.ReadError | packages/docpack-jsdoc-extractor/lib/extractor.js:86-93 | a successful read gives no error; a read error with code ENOENT becomes the not-found error naming the tag's text, the source's path and the comment's line; any other read error is passed on unchanged |
| Extraction.MissingExampleFile | packages/docpack-jsdoc-extractor/lib/extractor.js:89-93 | a not-found error names an example-file tag's raw text, the source's path and its comment's line, and reading that tag's resolved path failed with code ENOENT |
| Extraction.OtherReadFailure | packages/docpack-jsdoc-extractor/lib/extractor.js:86-93 | a read error returned unchanged never has code ENOENT, and it is the error of reading an example-file tag's resolved path |
| Extraction.FirstReadMissing | packages/docpack-jsdoc-extractor/lib/extractor.js:86-93 | when the first read issued fails with code ENOENT, the extraction fails with the not-found error for that tag, not the reader's error |
| Extraction.FailingFileFails | packages/docpack-jsdoc-extractor/lib/extractor.js:81-96 | when any example-file tag's file cannot be read, the extraction fails with a not-found or read error |
| Join.FlattenSingles | packages/docpack-jsdoc-extractor/lib/extractor.js:109 | examples appended one by one flatten back to themselves |
| Join.FlattenFlat | packages/docpack-jsdoc-extractor/lib/extractor.js:109 | a list with no nested entry is left as it is by flattening |
| Join.FlattenBlock | packages/docpack-jsdoc-extractor/lib/extractor.js:108-110 | a flattened block has no nested entry left, keeps its examples in order and changes nothing else; an already flat block is unchanged |
| Extraction.SuccessfulExtraction | packages/docpack-jsdoc-extractor/lib/extractor.js:69-110 | a successful extraction with comments leaves every block's examples flat, as its inline examples in tag order followed by its example files' examples in tag order, and registers every example file's resolved path once, in issue order |
| Extractor.Loader.Extract | packages/docpack-jsdoc-extractor/lib/extractor.js:15-114 | the method's result and the source's attributes, blocks and the loader's dependencies afterwards are exactly those of Run |
| Extractor.Loader.BuildBlocks | packages/docpack-jsdoc-extractor/lib/extractor.js:35-104 | with comments, blocks is reset and gets one built block per comment in order, and the first comment's tags are promoted; otherwise blocks is untouched; the reads are returned in issue order |
| Extractor.Loader.AddBlock | packages/docpack-jsdoc-extractor/lib/extractor.js:40-103 | one comment's block is pushed, attributes are promoted only for the first comment, and the comment's reads are returned in tag order |
| Extractor.Loader.DispatchTag | packages/docpack-jsdoc-extractor/lib/extractor.js:60-98 | one tag's branch: its block-attribute write, its inline examples appended, or its read issued |
| Extractor.Loader.SettleReads | packages/docpack-jsdoc-extractor/lib/extractor.js:81-96 | the source's blocks and the loader's dependencies become those of all reads settling in issue order, and the first failure is returned |
| Extractor.Loader.FlattenBlocks | packages/docpack-jsdoc-extractor/lib/extractor.js:106-110 | every block is replaced by its flattened form, in place |

## Left out

- The `dox` comment parser and the XML example parser. They are foreign libraries, modelled as injected total functions with no properties assumed.
- Concurrency of the file reads (Bluebird promises and `Promise.all`). The model settles the reads one after the other in issue order, which assumes reads complete in the order they were issued. Under another completion order, the file entries of one block, the order of dependencies and the error reported could differ.
- The rule that the comment parser is not called on blank content. The parser is a pure function in the model, so calling it or not makes no observable difference. `Extraction.BlankContentIsNoOp` states the observable half: nothing changes.
- Message text built by `util.format` (lines 31 and 90). The errors carry the fields the messages are built from, not the formatted strings.
- The `CodeBlock` and `Example` constructors (lines 6-7) are not part of this model. A new block is taken to start with no attributes and no examples, and a literal example to hold only its content.
- Node's `path.dirname` and `path.resolve` semantics. They are abstract functions.
- Attributes as JavaScript objects. `source.attrs` and a block's `attrs` are modelled as maps, and every tag name becomes a key. In JavaScript, assigning to the key `__proto__` hits the prototype setter, which ignores a string value, so no key is created. The model does not special-case `__proto__` and stores it like any other name.
- Decoding of the file buffer (`buffer.toString()`). The reader returns text directly.
- Object identity of code blocks. A block is a value in the model, and a read callback reaches its block through the block's index in `source.blocks`. Aliasing of a block by code outside `extract` is not captured.
- An absent `tags` list (line 49). It is modelled as an empty list, which behaves the same way.
- Strings are sequences of Unicode scalar values, not UTF-16 code units. Trimming uses the ECMAScript WhiteSpace and LineTerminator characters.
- Exceptions thrown by the injected collaborators, such as the example parser failing inside a read's callback. The collaborators are total.
