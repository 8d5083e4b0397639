/** The part of `extract` that runs after every block is built: the issued
    example-file reads settle, then each block's examples are flattened.
    The reads are taken to settle one after the other in the order they were
    issued; a read that fails does not stop the others. */
module Join {
  import opened Docs
  import opened Dispatch

  /** The examples of one entry. */
  function EntryExamples(e: Entry): seq<Example> {
    match e
    case One(x) => [x]
    case Many(xs) => xs
  }

  /** One-level flattening of an examples list, as `[].concat.apply([], list)` does. */
  function Flatten(entries: seq<Entry>): seq<Example>
    decreases |entries|
  {
    if entries == [] then [] else EntryExamples(entries[0]) + Flatten(entries[1..])
  }

  predicate IsFlat(entries: seq<Entry>) {
    forall i :: 0 <= i < |entries| ==> entries[i].One?
  }

  lemma {:induction false} FlattenAppend(a: seq<Entry>, b: seq<Entry>)
    ensures Flatten(a + b) == Flatten(a) + Flatten(b)
    decreases |a|
  {
    if a != [] {
      assert (a + b)[1..] == a[1..] + b;
      FlattenAppend(a[1..], b);
    } else {
      assert a + b == b;
    }
  }

  /** Flattening examples appended one by one gives them back. */
  lemma {:induction false} FlattenSingles(exs: seq<Example>)
    ensures Flatten(Singles(exs)) == exs
    decreases |exs|
  {
    if exs != [] {
      assert Singles(exs)[1..] == Singles(exs[1..]);
      FlattenSingles(exs[1..]);
    }
  }

  /** A list that is already flat is left as it is. */
  lemma {:induction false} FlattenFlat(entries: seq<Entry>)
    ensures IsFlat(entries) ==> Singles(Flatten(entries)) == entries
    decreases |entries|
  {
    if entries != [] && IsFlat(entries) {
      FlattenFlat(entries[1..]);
      assert Flatten(entries) == [entries[0].example] + Flatten(entries[1..]);
      SinglesAppend([entries[0].example], Flatten(entries[1..]));
      assert entries == [entries[0]] + entries[1..];
    }
  }

  /** A block with its examples flattened: no nested entry remains, the
      examples and their order are kept, and nothing else changes. */
  function FlattenBlock(b: CodeBlock): (r: CodeBlock)
    ensures IsFlat(r.examples)
    ensures Flatten(r.examples) == Flatten(b.examples)
    ensures r.content == b.content && r.description == b.description && r.attrs == b.attrs
    ensures IsFlat(b.examples) ==> r == b
  {
    FlattenSingles(Flatten(b.examples));
    FlattenFlat(b.examples);
    b.(examples := Singles(Flatten(b.examples)))
  }

  function FlattenAll(bs: seq<CodeBlock>): seq<CodeBlock> {
    seq(|bs|, i requires 0 <= i < |bs| => FlattenBlock(bs[i]))
  }

  /** The state the reads settle into: the blocks, the dependencies
      registered, and the first failure met, if any. */
  datatype Joined = Joined(blocks: seq<CodeBlock>, deps: seq<string>, failure: Option<Error>)

  /** The error a read turns into: an error with code `ENOENT` becomes one
      naming the tag's text, the source's path and the comment's line; any
      other error is passed on unchanged. */
  function ReadError(r: PendingRead, res: ReadResult, sourcePath: string): (err: Option<Error>)
    ensures err.None? <==> res.Contents?
    ensures res.Failure? && res.error.code == EnoEnt ==> err == Some(ExampleFileNotFound(r.tagText, sourcePath, r.line))
    ensures res.Failure? && res.error.code != EnoEnt ==> err == Some(ReadFailed(res.error))
  {
    match res
    case Contents(_) => None
    case Failure(e) =>
      if e.code == EnoEnt then Some(ExampleFileNotFound(r.tagText, sourcePath, r.line)) else Some(ReadFailed(e))
  }

  /** One read settling: on success the path is registered as a dependency and
      the parsed examples are pushed onto the block as one nested entry; on
      failure the error is kept unless an earlier one was. */
  function Settle(j: Joined, r: PendingRead, res: ReadResult, sourcePath: string, lib: Libraries): Joined
    requires r.block < |j.blocks|
  {
    match res
    case Contents(text) =>
      var b := j.blocks[r.block];
      Joined(j.blocks[r.block := b.(examples := b.examples + [Many(lib.parseExamples(text))])], j.deps + [r.path], j.failure)
    case _ =>
      j.(failure := if j.failure.Some? then j.failure else ReadError(r, res, sourcePath))
  }

  predicate ReadsInRange(pending: seq<PendingRead>, n: nat) {
    forall k :: 0 <= k < |pending| ==> pending[k].block < n
  }

  /** All reads settling in issue order. No block is added or removed. */
  function SettleAll(j: Joined, pending: seq<PendingRead>, readFile: string -> ReadResult, sourcePath: string, lib: Libraries): (r: Joined)
    requires ReadsInRange(pending, |j.blocks|)
    ensures |r.blocks| == |j.blocks|
    decreases |pending|
  {
    if pending == [] then j
    else
      var last := pending[|pending| - 1];
      Settle(SettleAll(j, pending[..|pending| - 1], readFile, sourcePath, lib), last, readFile(last.path), sourcePath, lib)
  }

  /** The entries the reads of `pending` that succeed push onto block `b`, in order. */
  function FileEntries(pending: seq<PendingRead>, b: nat, readFile: string -> ReadResult, lib: Libraries): seq<Entry>
    decreases |pending|
  {
    if pending == [] then []
    else
      (match readFile(pending[0].path)
       case Contents(text) => if pending[0].block == b then [Many(lib.parseExamples(text))] else []
       case _ => [])
      + FileEntries(pending[1..], b, readFile, lib)
  }

  /** The paths of the reads that succeed, in order. */
  function SucceededPaths(pending: seq<PendingRead>, readFile: string -> ReadResult): seq<string>
    decreases |pending|
  {
    if pending == [] then []
    else (if readFile(pending[0].path).Contents? then [pending[0].path] else []) + SucceededPaths(pending[1..], readFile)
  }

  /** The error of the first read, in issue order, that fails. */
  function FirstFailure(pending: seq<PendingRead>, readFile: string -> ReadResult, sourcePath: string): Option<Error>
    decreases |pending|
  {
    if pending == [] then None
    else
      var e := ReadError(pending[0], readFile(pending[0].path), sourcePath);
      if e.Some? then e else FirstFailure(pending[1..], readFile, sourcePath)
  }

  lemma {:induction false} FileEntriesAppend(a: seq<PendingRead>, c: seq<PendingRead>, b: nat, readFile: string -> ReadResult, lib: Libraries)
    ensures FileEntries(a + c, b, readFile, lib) == FileEntries(a, b, readFile, lib) + FileEntries(c, b, readFile, lib)
    decreases |a|
  {
    if a != [] {
      assert (a + c)[1..] == a[1..] + c;
      FileEntriesAppend(a[1..], c, b, readFile, lib);
    } else {
      assert a + c == c;
    }
  }

  lemma {:induction false} SucceededPathsAppend(a: seq<PendingRead>, c: seq<PendingRead>, readFile: string -> ReadResult)
    ensures SucceededPaths(a + c, readFile) == SucceededPaths(a, readFile) + SucceededPaths(c, readFile)
    decreases |a|
  {
    if a != [] {
      assert (a + c)[1..] == a[1..] + c;
      SucceededPathsAppend(a[1..], c, readFile);
    } else {
      assert a + c == c;
    }
  }

  lemma {:induction false} FirstFailureAppend(a: seq<PendingRead>, c: seq<PendingRead>, readFile: string -> ReadResult, sourcePath: string)
    ensures FirstFailure(a + c, readFile, sourcePath) ==
      if FirstFailure(a, readFile, sourcePath).Some? then FirstFailure(a, readFile, sourcePath) else FirstFailure(c, readFile, sourcePath)
    decreases |a|
  {
    if a != [] {
      assert (a + c)[1..] == a[1..] + c;
      FirstFailureAppend(a[1..], c, readFile, sourcePath);
    } else {
      assert a + c == c;
    }
  }

  /** What settling all reads does, stated without the settling order of the
      fold: each block gains, after its own entries, one nested entry per read of
      it that succeeds, in issue order; every successful read registers its path
      once, in issue order; the failure kept is the first failing read's. */
  lemma {:induction false} SettleAllEffect(j: Joined, pending: seq<PendingRead>, readFile: string -> ReadResult, sourcePath: string, lib: Libraries)
    requires ReadsInRange(pending, |j.blocks|)
    ensures var r := SettleAll(j, pending, readFile, sourcePath, lib);
      && (forall b :: 0 <= b < |j.blocks| ==>
            r.blocks[b] == j.blocks[b].(examples := j.blocks[b].examples + FileEntries(pending, b, readFile, lib)))
      && r.deps == j.deps + SucceededPaths(pending, readFile)
      && r.failure == if j.failure.Some? then j.failure else FirstFailure(pending, readFile, sourcePath)
    decreases |pending|
  {
    if pending != [] {
      var n := |pending| - 1;
      var prefix := pending[..n];
      var last := pending[n];
      assert pending == prefix + [last];
      SettleAllEffect(j, prefix, readFile, sourcePath, lib);
      forall b | 0 <= b < |j.blocks|
        ensures FileEntries(pending, b, readFile, lib) == FileEntries(prefix, b, readFile, lib) + FileEntries([last], b, readFile, lib)
      {
        FileEntriesAppend(prefix, [last], b, readFile, lib);
      }
      SucceededPathsAppend(prefix, [last], readFile);
      FirstFailureAppend(prefix, [last], readFile, sourcePath);
    }
  }

  /** The first failure is the error of some read, and every read issued before
      that one succeeded; there is none exactly when every read succeeds. */
  lemma {:induction false} FirstFailureIsFirst(pending: seq<PendingRead>, readFile: string -> ReadResult, sourcePath: string)
    ensures FirstFailure(pending, readFile, sourcePath).None? <==> forall k :: 0 <= k < |pending| ==> readFile(pending[k].path).Contents?
    ensures FirstFailure(pending, readFile, sourcePath).Some? ==> exists k ::
      && 0 <= k < |pending|
      && (forall i :: 0 <= i < k ==> readFile(pending[i].path).Contents?)
      && FirstFailure(pending, readFile, sourcePath) == ReadError(pending[k], readFile(pending[k].path), sourcePath)
    decreases |pending|
  {
    if pending != [] {
      var rest := pending[1..];
      FirstFailureIsFirst(rest, readFile, sourcePath);
      assert forall i :: 0 <= i < |rest| ==> rest[i] == pending[i + 1];
      if FirstFailure(pending, readFile, sourcePath).Some? && readFile(pending[0].path).Contents? {
        var k :| && 0 <= k < |rest|
          && (forall i :: 0 <= i < k ==> readFile(rest[i].path).Contents?)
          && FirstFailure(rest, readFile, sourcePath) == ReadError(rest[k], readFile(rest[k].path), sourcePath);
        assert forall i :: 0 <= i < k + 1 ==> readFile(pending[i].path).Contents?;
      }
    }
  }

  /** When every read succeeds, every path read is registered. */
  lemma {:induction false} AllSucceeded(pending: seq<PendingRead>, readFile: string -> ReadResult)
    requires forall k :: 0 <= k < |pending| ==> readFile(pending[k].path).Contents?
    ensures SucceededPaths(pending, readFile) == seq(|pending|, k requires 0 <= k < |pending| => pending[k].path)
    decreases |pending|
  {
    if pending != [] {
      AllSucceeded(pending[1..], readFile);
    }
  }
}
