/** The exported function of lib/file2js.js, with its module-level
    registry `compiled_files` as the field of an object. The environment
    (normalizer, disk, pipeline, and which output paths can be written) is
    fixed when the object is created; the effects the call has on the
    outside world are kept in a ghost log. */
module File2Js {
  import opened Seqs
  import opened Paths
  import opened Compilation

  class Orchestrator {
    const env: Env
    /** compiled_files: the normalized paths claimed so far. */
    var compiled: seq<string>
    /** The claims, reads, pipeline runs and writes performed so far. */
    ghost var log: seq<Event>

    ghost predicate Valid()
      reads this
    {
      Compilation.Valid(env, State(compiled, log))
    }

    /** Loading the module: an empty registry, nothing done yet. */
    constructor (env: Env)
      ensures Valid()
      ensures this.env == env && compiled == [] && log == []
    {
      this.env := env;
      compiled := [];
      log := [];
      new;
      InitialValid(env);
    }

    /** One call of the exported function: skip a file whose normalized path
        is registered; otherwise register it, read it, run the pipeline
        (which calls back in for the files the source refers to) and write
        the output. */
    method Compile(f: string) returns (o: Outcome)
      requires Valid()
      modifies this
      decreases Pending(env, compiled)
      ensures Valid()
      ensures old(compiled) <= compiled
      ensures Step(State(compiled, log), o) == Compilation.Compile(env, State(old(compiled), old(log)), f)
    {
      ghost var st := State(compiled, log);
      CompilePreservesValid(env, st, f);
      var key := env.normalize(f);
      if IndexOf(compiled, key) != -1 {
        return Done;
      }
      compiled := compiled + [key];
      log := log + [Claim(key), Read(f)];
      if f !in env.disk {
        return Fatal(ReadFailure(f));
      }
      var source := env.disk[f];
      var base := BaseDir(f);
      log := log + [Run(f, source, base)];
      var gen := env.pipeline(source, base);
      ghost var started := State(compiled, log);
      assert started == Opened(env, st, f);
      OpenedValid(env, st, f);
      PendingShrinks(env, st.compiled, f);
      var i := 0;
      while i < |gen.refs|
        invariant 0 <= i <= |gen.refs|
        invariant Valid()
        invariant started.compiled <= compiled
        invariant CompileAll(env, started, gen.refs) == CompileAll(env, State(compiled, log), gen.refs[i..])
      {
        PendingMonotone(env, started.compiled, compiled);
        assert gen.refs[i..][0] == gen.refs[i] && gen.refs[i..][1..] == gen.refs[i + 1..];
        var sub := Compile(gen.refs[i]);
        if sub.Fatal? {
          return sub;
        }
        i := i + 1;
      }
      if gen.output.None? {
        return Fatal(PipelineFailure(f));
      }
      var out := OutputPath(f);
      if !env.writable(out) {
        return Fatal(WriteFailure(f));
      }
      log := log + [Write(f, out, gen.output.value)];
      o := Done;
    }
  }
}
