/** The records the extractor reads and writes, and the collaborators it calls.
    The comment parser, the example parser and the path functions are libraries
    whose bodies are not part of this model: they are carried as total functions
    in a `Libraries` value, so every property below holds for any of them. */
module Docs {

  datatype Option<+T> = None | Some(value: T) {
    function GetOr(default: T): T {
      match this
      case Some(v) => v
      case None => default
    }
  }

  /** One `@name value` tag as the comment parser reports it. `full` and `html`
      are the alternate renderings the parser gives; only `description` tags use them. */
  datatype Tag = Tag(name: string, text: string, full: string, html: string)

  /** The comment-level description of a doc comment. */
  datatype Description = Description(full: string, html: string)

  /** One doc comment: the code that follows it (absent when there is none),
      its description (absent when there is none), its tags in order, and the
      line it starts on. An absent tag list is the empty sequence. */
  datatype Comment = Comment(code: Option<string>, description: Option<Description>, tags: seq<Tag>, line: int)

  /** An example: a literal one made from the raw text of an `@example` tag, or
      a structured one produced by the example parser. */
  datatype Example =
    | Literal(content: string)
    | Structured(content: string, attrs: map<string, string>)

  /** One element of a block's `examples` list before it is flattened: a single
      example, or a whole sequence pushed as one entry. */
  datatype Entry = One(example: Example) | Many(examples: seq<Example>)

  /** The extracted form of one doc comment. */
  datatype CodeBlock = CodeBlock(
    content: string,
    description: Option<string>,
    attrs: map<string, string>,
    examples: seq<Entry>)

  /** The extractor's options: `raw` selects the literal rendering of
      `description` tags; everything else is passed to the comment parser. */
  datatype Options = Options(raw: bool, passThrough: map<string, string>)

  /** What the comment parser returns: the comments, or the text of the error it threw. */
  datatype Parsed = Comments(comments: seq<Comment>) | ParseError(message: string)

  /** The error a file read rejects with: Node's error code and its message. */
  datatype IoError = IoError(code: string, message: string)

  /** The code Node gives a read of a file that does not exist. */
  const EnoEnt: string := "ENOENT"

  /** What reading an example file gives: its text, or the error the read rejected with. */
  datatype ReadResult = Contents(text: string) | Failure(error: IoError)

  /** The ways `extract` fails. `BlocksUnset` is the TypeError that the final
      flattening step throws when `source.blocks` was never assigned. */
  datatype Error =
    | InvalidDoc(path: string, parserMessage: string)
    | ExampleFileNotFound(tagText: string, path: string, line: int)
    | ReadFailed(error: IoError)
    | BlocksUnset

  datatype Outcome = Done | Failed(error: Error)

  /** The library functions `extract` calls. */
  datatype Libraries = Libraries(
    parseComments: (string, Options) -> Parsed,
    parseExamples: string -> seq<Example>,
    dirname: string -> string,
    resolve: (string, string) -> string)

  /** The fields of a source file that `extract` reads but never changes. */
  datatype SourceInfo = SourceInfo(path: string, absolutePath: string, content: string)

  /** The part of the world `extract` changes: the source's attributes and
      blocks, and the dependencies registered with the loader. */
  datatype State = State(attrs: map<string, string>, blocks: Option<seq<CodeBlock>>, deps: seq<string>)
}
