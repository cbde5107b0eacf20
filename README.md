# file2js: the HCL compilation driver, modelled in Dafny

`lib/file2js.js` is the driver of the HCL-to-JavaScript compiler. It exports one
function that takes the path of a `.hcl` source file.

It keeps a process-wide registry, `compiled_files`, of normalized paths. A call
whose normalized path is already registered returns at once. Any other call
first registers the path, and only then reads the file. It runs the
scan / parse / analyze / generate pipeline on the text, giving the generator
the file's directory. It writes the generated JavaScript next to the source,
with `.hcl` replaced by `.js`. While generating, the pipeline calls back into
the driver for every file the source refers to. Registering the path before
compiling is what makes cyclic references terminate.

The model has four modules:

- `Seqs` holds sequence helpers: `Option`, duplicate-freedom, and the
  `indexOf` search the registry uses.
- `Paths` holds the two path derivations. Each is a single non-global
  `String.prototype.replace` anchored at the end of the string.
  - `OutputPath` models `/\.hcl$/` → `.js`.
  - `BaseDir` models `/\/[^\/]+$/` → `/`.

  Both are stated against the match predicates they implement (`ExtMatchAt`,
  `DirMatchAt`).
- `Compilation` is the reference model. `Compile` is one call as a pure
  function of a `State`, which holds the registry and a log of the call's
  effects: `Claim`, `Read`, `Run` (the pipeline starts) and `Write`.
  `CompileAll` is the sequence of re-entrant calls the pipeline makes.
  The environment `Env` holds the four pieces outside the driver:
  - the path normalizer;
  - the files on disk, as a map from path to text;
  - the pipeline, as a function from source text and base directory to the
    files it refers to, in order, and then either the generated text or
    `None` when a stage throws;
  - which output paths a write succeeds on.

  `Valid` is the process-wide invariant: the registry equals the claims in
  the log, in order, without duplicates. No normalized path is read, run or
  written twice. Every logged run and write agrees with the disk, `BaseDir`
  and `OutputPath`.
- `File2Js` is the driver itself, as the class `Orchestrator` whose field
  `compiled` is the registry. The environment is fixed at construction, and
  the effects go to a ghost log. Its method `Compile` is the imperative
  procedure, with a loop over the re-entrant calls. Its contract states that
  its new state and outcome are exactly those of `Compilation.Compile` on
  the old state, and that it keeps `Valid`.

A thrown error ends the Node process. This covers `if (err) throw err`, a
pipeline stage throwing, and a failed write (see the write-failure line
under "Left out"). It is modelled as a `Fatal` outcome that stops every
remaining call of the run.

Two behaviours of the code are easy to miss:

- A path that does not end in `.hcl` is its own output path
  (`Paths.OutputPathChanges`). Compiling such a file writes the generated
  code over the source file.
- A path without a separator, or one whose last character is `/`, is passed
  unchanged as the base directory, not as "the parent directory"
  (`Paths.BaseDir`, `Paths.BaseDirEndsInSeparator`).

## Model

| member | source | states |
|---|---|---|
| Seqs.IndexOf | lib/file2js.js:16 | the registry lookup: -1 exactly when the key is absent; otherwise the position of its first occurrence |
| Paths.OutputPath | lib/file2js.js:31 | when `/\.hcl$/` matches at offset i, the result is the path up to i followed by `.js`; when nothing matches, the path is unchanged |
| Paths.OutputPathSwapsExtension | lib/file2js.js:31 | `stem.hcl` is written to `stem.js`, for every stem |
| Paths.OutputPathChanges | lib/file2js.js:31 | the output path differs from the source path if and only if the source path ends in `.hcl` |
| Paths.BaseDir | lib/file2js.js:29 | when `/\/[^\/]+$/` matches at offset i, the result is the path up to i followed by `/`; when nothing matches, the path is unchanged |
| Paths.MatchesUnique | lib/file2js.js:29-31 | each of the two end-anchored patterns matches at most one offset, so the leftmost match of a non-global replace is the only match |
| Paths.BaseDirEndsInSeparator | lib/file2js.js:29 | the derived directory ends in `/` if and only if the path contains a `/` |
| Paths.BaseDirDropsLastComponent | lib/file2js.js:29 | the derived directory is a prefix of the path, and what it drops contains no separator |
| Paths.BaseDirIdempotent | lib/file2js.js:29 | deriving the directory of the derived directory changes nothing |
| Paths.OutputPathKeepsBaseDir | lib/file2js.js:29-31 | for `dir/stem.hcl` with a separator in the stem part, the output file lies in the same directory that was handed to the generator |
| Compilation.Compile | lib/file2js.js:9-34 | one call: the registry and the effect log only grow |
| Compilation.CompileAll | lib/file2js.js:30 | the registry and the effect log only grow |
| Compilation.CompileSteps | lib/file2js.js:16-32 | the key ends up registered; a registered key makes the call a no-op; otherwise the key is registered and claimed before the read is issued; a failed read is fatal, leaving the key registered and nothing else done; a new key whose output path cannot be written makes the call fatal; a successful call ends by writing the generated text to `OutputPath(f)`, which is writable |
| Compilation.CompileAllRegistersRefs | lib/file2js.js:27-30 | when none of the re-entrant calls fails, the normalized path of every referenced file is in the registry afterwards |
| Compilation.CompileRegistersRefs | lib/file2js.js:21-30 | a successful call for a new, readable file leaves the normalized path of every file its source refers to in the registry |
| Compilation.CompileWritesClaims | lib/file2js.js:21-32 | a call that returns Done has written every key it claimed |
| Compilation.CompileAllWritesClaims | lib/file2js.js:30-32 | re-entrant calls that end in Done have written every key they claimed |
| Compilation.SuccessfulCallWritesEachClaimOnce | lib/file2js.js:21-32 | a call that returns Done writes each file it claimed exactly once: the written keys and the claimed keys are the same, with no repetition |
| Compilation.CompileEffects | lib/file2js.js:5-7 | the effects of any call: the registry grows by exactly the keys the call claims, stays duplicate-free, and every read, run and write of the call is for a key it claimed itself, each at most once |
| Compilation.CompileAllEffects | lib/file2js.js:27-30 | the same effects statement for the sequence of re-entrant calls |
| Compilation.CompileOwnKey | lib/file2js.js:21-32 | a call that claims its key reads that file first; it runs the pipeline on it if and only if the file can be read; it writes its output if and only if the call returns Done; no key is read, run or written twice within the call |
| Compilation.OpenedValid | lib/file2js.js:21-30 | the state in which the pipeline starts on a newly registered file satisfies the invariant |
| Compilation.CompilePreservesValid | lib/file2js.js:16-21 | every call keeps the process-wide invariant: the registry is the claims of the whole log, without duplicates, and nothing is read, run or written twice |
| Compilation.AtMostOnce | lib/file2js.js:5-7 | in any reachable log, two reads, two pipeline runs or two writes are never for files with the same normalized path |
| Compilation.CompileSkipsClaimedKeys | lib/file2js.js:16-19 | a call never reads, runs or writes a file whose normalized path was registered before the call began |
| Compilation.SecondCallIsNoop | lib/file2js.js:16-21 | after a call for `f`, any call for a path that normalizes like `f` does nothing, whether the first call succeeded or failed |
| Compilation.CompilationsBounded | lib/file2js.js:5-6 | however the files refer to each other, the number of pipeline runs never exceeds the number of distinct normalized paths of readable files |
| Compilation.CyclicIncludesTerminate | lib/file2js.js:5-6 | a.hcl referring to b.hcl, which refers back to a.hcl: the run claims, reads and runs a then b; b's call back into a does nothing; in the model's sequential order, b.js is written, then a.js; the outcome is Done |
| File2Js.Orchestrator.constructor | lib/file2js.js:7 | the registry starts empty, nothing has happened yet, and the invariant holds |
| File2Js.Orchestrator.Compile | lib/file2js.js:9-34 | the imperative call, with its loop over the re-entrant calls: it keeps the invariant, only grows the registry, and its new registry, log and outcome equal those of `Compilation.Compile` on the old state |

## Left out

- File reading and writing are asynchronous in the source. The model runs
  each callback at once and to completion, so the calls form a depth-first
  traversal: the re-entrant calls finish before the enclosing file's write.
  In Node, a re-entrant call registers its key and only schedules its read.
  So the read and compilation of a referenced file wait until the enclosing
  callback returns, and the enclosing file's write is issued first. Issuing
  it does not finish it: `fs.writeFile` opens, writes and closes the file in
  separate asynchronous steps. Only three things are the same in both
  orders: the set of registered keys of a run without failures, the
  at-most-once properties, and termination. The following differ:
  - Registration order. Take a.hcl referring to b.hcl and c.hcl, and b.hcl
    referring to d.hcl. Node registers a, b, c, d; the model registers
    a, b, d, c.
  - Write order. Node issues an enclosing file's write before its
    references are compiled; the model writes it after them.
  - A nested failure. When a referenced file fails, Node has already
    issued the enclosing file's write, but the crash may come before that
    write completes. The enclosing output may then be missing, empty or
    complete, depending on I/O timing. The model writes nothing for the
    enclosing file.
  - A pipeline that throws after requesting references. Node crashes inside
    that callback, before any referenced read completes, so no referenced
    file is compiled or written. The model compiles and writes the
    referenced files first, then returns `PipelineFailure`.
  - A failed read of a reference. Node has already registered the later
    sibling references and issued their reads; they may compile and write
    before the crash. The model never registers them.
- The disk is a snapshot taken at the start. A file written by the run is
  not visible to later reads in the model.
- `fs.writeFile` is called without a callback. Before version 10, Node
  supplies a default callback that rethrows the error, so a failed write
  ends the process. The model follows this: a write to an output path that
  `Env.writable` rejects is `Fatal(WriteFailure(f))`, and nothing is
  written. From version 10 on, Node rejects the call itself with a
  `TypeError` before writing anything. Every call that reaches the write
  then ends the process without producing output. The model does not
  capture this later behaviour.
- The scanner, parser, analyzer, the `hot-cocoa` grammar, the choice of the
  analyzer's first result and `compile.js` are not part of this model. Their
  combined effect is the `pipeline` function of the environment.
- The pipeline is taken to be deterministic in its source text and base
  directory. Its references are requested in order, and its success or
  failure is decided after them.
- `path.normalize` is not part of this model. It is an arbitrary function in
  the environment, so every property holds for any normalizer.
- Decoding the file's bytes (`text.toString()`) is not modelled: the disk
  maps paths to text.
- The late `require('./compile.js')` inside the function only works around
  Node's module-loading order and has no effect on the model.
- Process exit on an uncaught exception is modelled as a `Fatal` outcome that
  skips the rest of the run. The exception's message is not modelled.
