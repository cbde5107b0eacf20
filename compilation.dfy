/** The orchestrator as a function of its state: the registry of
    normalized paths already claimed, and the log of observable effects
    (claims, reads, pipeline runs, writes). The foreign pieces are an
    environment: the path normalizer, the files on disk, the
    scan/parse/analyze/generate pipeline, and which output paths can be
    written. While generating, the pipeline asks the orchestrator,
    re-entrantly and in order, to compile the files the source refers to. */
module Compilation {
  import opened Seqs
  import opened Paths

  /** What the pipeline does with one source text and base directory: the
      files it asks to have compiled, in order, and then either the
      generated text or None when a stage raised. */
  datatype Generated = Generated(refs: seq<string>, output: Option<string>)

  /** The pieces outside the driver: the path normalizer, the readable
      files and their text, the pipeline, and which output paths a write
      succeeds on. */
  datatype Env = Env(
    normalize: string -> string,
    disk: map<string, string>,
    pipeline: (string, string) -> Generated,
    writable: string -> bool)

  datatype Event =
    | Claim(key: string)                                  // compiled_files.push(key)
    | Read(file: string)                                  // fs.readFile(file)
    | Run(file: string, source: string, baseDir: string)  // the pipeline starts on file
    | Write(file: string, outFile: string, text: string)  // fs.writeFile(outFile, text), for file

  datatype State = State(compiled: seq<string>, log: seq<Event>)

  datatype Failure = ReadFailure(file: string) | PipelineFailure(file: string) | WriteFailure(file: string)

  /** Done, or a fatal error that ends the whole run. */
  datatype Outcome = Done | Fatal(failure: Failure)

  datatype Step = Step(state: State, outcome: Outcome)

  /** The keys of the files that can be read at all. */
  function Universe(env: Env): set<string> {
    set p | p in env.disk :: env.normalize(p)
  }

  /** Readable keys not yet claimed: the termination measure. */
  function Pending(env: Env, compiled: seq<string>): nat {
    |Universe(env) - set k | k in compiled|
  }

  lemma PendingMonotone(env: Env, a: seq<string>, b: seq<string>)
    requires a <= b
    ensures Pending(env, b) <= Pending(env, a)
  {
    var u := Universe(env);
    assert forall k :: k in a ==> k in b by {
      forall k | k in a ensures k in b {
        var i :| 0 <= i < |a| && a[i] == k;
        assert b[i] == k;
      }
    }
    var x, y := u - (set k | k in b), u - (set k | k in a);
    assert x <= y;
    assert y == x + (y - x) && x * (y - x) == {};
  }

  lemma PendingShrinks(env: Env, a: seq<string>, f: string)
    requires f in env.disk && env.normalize(f) !in a
    ensures Pending(env, a + [env.normalize(f)]) < Pending(env, a)
  {
    var k := env.normalize(f);
    var left := Universe(env) - set x | x in a;
    assert k in left;
    assert Universe(env) - (set x | x in a + [k]) == left - {k};
  }

  /** One call of the exported function on path `f`. The registry and the
      log only grow. */
  function Compile(env: Env, st: State, f: string): (r: Step)
    decreases Pending(env, st.compiled), 0, 0
    ensures st.compiled <= r.state.compiled && st.log <= r.state.log
  {
    var key := env.normalize(f);
    if IndexOf(st.compiled, key) != -1 then Step(st, Done)
    else if f !in env.disk then Step(Claimed(env, st, f), Fatal(ReadFailure(f)))
    else
      var gen := env.pipeline(env.disk[f], BaseDir(f));
      var started := Opened(env, st, f);
      PendingShrinks(env, st.compiled, f);
      var sub := CompileAll(env, started, gen.refs);
      FinishSteps(env, f, gen, sub, started);
      var r := Finish(env, f, gen, sub);
      PrefixTransitive(st.compiled, started.compiled, r.state.compiled);
      PrefixTransitive(st.log, started.log, r.state.log);
      r
  }

  /** The key is claimed and the read is issued. */
  function Claimed(env: Env, st: State, f: string): State {
    State(st.compiled + [env.normalize(f)], st.log + [Claim(env.normalize(f)), Read(f)])
  }

  /** The read succeeded and the pipeline starts on the text read, with the
      derived base directory. */
  function Opened(env: Env, st: State, f: string): State
    requires f in env.disk
  {
    var c := Claimed(env, st, f);
    State(c.compiled, c.log + [Run(f, env.disk[f], BaseDir(f))])
  }

  /** After the re-entrant calls: propagate their failure, fail for this
      file, fail to write its output, or write it. */
  function Finish(env: Env, f: string, gen: Generated, sub: Step): Step {
    if sub.outcome.Fatal? then sub
    else if gen.output.None? then Step(sub.state, Fatal(PipelineFailure(f)))
    else if !env.writable(OutputPath(f)) then Step(sub.state, Fatal(WriteFailure(f)))
    else Step(State(sub.state.compiled, sub.state.log + [Write(f, OutputPath(f), gen.output.value)]), Done)
  }

  /** The re-entrant calls made while one file is generated, in order; the
      first fatal error ends them. */
  function CompileAll(env: Env, st: State, refs: seq<string>): (r: Step)
    decreases Pending(env, st.compiled), 1, |refs|
    ensures st.compiled <= r.state.compiled && st.log <= r.state.log
  {
    if |refs| == 0 then Step(st, Done)
    else
      var first := Compile(env, st, refs[0]);
      if first.outcome.Fatal? then first
      else
        PendingMonotone(env, st.compiled, first.state.compiled);
        CompileAll(env, first.state, refs[1..])
  }

  /** What one call does, step by step: a call for a claimed key does
      nothing; otherwise the key is claimed before the file is read; a
      failed read is fatal and leaves the key claimed; a call whose output
      path cannot be written is fatal; a call that succeeds ends by
      writing the generated text to the derived output path. */
  lemma CompileSteps(env: Env, st: State, f: string)
    ensures var r := Compile(env, st, f);
      var key := env.normalize(f);
      && key in r.state.compiled
      && (key in st.compiled ==> r == Step(st, Done))
      && (key !in st.compiled ==>
            && |r.state.compiled| > |st.compiled|
            && r.state.compiled[|st.compiled|] == key
            && |r.state.log| >= |st.log| + 2
            && r.state.log[|st.log|] == Claim(key)
            && r.state.log[|st.log| + 1] == Read(f))
      && (key !in st.compiled && f !in env.disk ==>
            r == Step(State(st.compiled + [key], st.log + [Claim(key), Read(f)]), Fatal(ReadFailure(f))))
      && (key !in st.compiled && !env.writable(OutputPath(f)) ==> r.outcome.Fatal?)
      && (key !in st.compiled && r.outcome == Done ==>
            && f in env.disk
            && env.pipeline(env.disk[f], BaseDir(f)).output.Some?
            && env.writable(OutputPath(f))
            && r.state.log[|r.state.log| - 1]
               == Write(f, OutputPath(f), env.pipeline(env.disk[f], BaseDir(f)).output.value))
  {
    var key := env.normalize(f);
    if key !in st.compiled {
      var r := Compile(env, st, f);
      var c := Claimed(env, st, f);
      if f in env.disk {
        var gen := env.pipeline(env.disk[f], BaseDir(f));
        var sub := CompileAll(env, Opened(env, st, f), gen.refs);
        assert r == Finish(env, f, gen, sub);
        FinishSteps(env, f, gen, sub, c);
      }
      ClaimedPrefix(env, st, f, r.state);
    }
  }

  /** Finish keeps what came before it and, when it succeeds, ends with the
      write of the generated text. */
  lemma FinishSteps(env: Env, f: string, gen: Generated, sub: Step, c: State)
    requires c.compiled <= sub.state.compiled && c.log <= sub.state.log
    ensures var r := Finish(env, f, gen, sub);
      && c.compiled <= r.state.compiled && c.log <= r.state.log
      && (r.outcome == Done ==>
            && gen.output.Some? && env.writable(OutputPath(f))
            && r.state.log[|r.state.log| - 1] == Write(f, OutputPath(f), gen.output.value))
      && (!env.writable(OutputPath(f)) ==> r.outcome.Fatal?)
  {
  }

  /** Any state that extends the claimed one starts with the claim and the
      read of the key. */
  lemma ClaimedPrefix(env: Env, st: State, f: string, s: State)
    requires Claimed(env, st, f).compiled <= s.compiled && Claimed(env, st, f).log <= s.log
    ensures |s.compiled| > |st.compiled| && s.compiled[|st.compiled|] == env.normalize(f)
    ensures |s.log| >= |st.log| + 2
    ensures s.log[|st.log|] == Claim(env.normalize(f)) && s.log[|st.log| + 1] == Read(f)
  {
    var c := Claimed(env, st, f);
    assert s.compiled[|st.compiled|] == c.compiled[|st.compiled|];
    assert s.log[|st.log|] == c.log[|st.log|] && s.log[|st.log| + 1] == c.log[|st.log| + 1];
  }

  // ---------------------------------------------------------------------
  // What the log records

  /** The keys claimed, in order. */
  function Claims(log: seq<Event>): seq<string> {
    if |log| == 0 then []
    else Claims(log[..|log| - 1]) + (if log[|log| - 1].Claim? then [log[|log| - 1].key] else [])
  }

  datatype Kind = Reading | Running | Writing

  predicate OfKind(kind: Kind, e: Event) {
    match kind
    case Reading => e.Read?
    case Running => e.Run?
    case Writing => e.Write?
  }

  /** The keys of the events of one kind, in order: one entry per read, per
      pipeline run, or per write. */
  function Keys(env: Env, kind: Kind, log: seq<Event>): seq<string> {
    if |log| == 0 then []
    else Keys(env, kind, log[..|log| - 1]) + KeyOf(env, kind, log[|log| - 1])
  }

  function KeyOf(env: Env, kind: Kind, e: Event): seq<string> {
    if OfKind(kind, e) then [env.normalize(e.file)] else []
  }

  lemma {:induction false} ClaimsAppend(a: seq<Event>, b: seq<Event>)
    ensures Claims(a + b) == Claims(a) + Claims(b)
  {
    if |b| == 0 {
      assert a + b == a;
    } else {
      ClaimsAppend(a, b[..|b| - 1]);
      assert (a + b)[..|a + b| - 1] == a + b[..|b| - 1];
    }
  }

  lemma {:induction false} KeysAppend(env: Env, kind: Kind, a: seq<Event>, b: seq<Event>)
    ensures Keys(env, kind, a + b) == Keys(env, kind, a) + Keys(env, kind, b)
  {
    if |b| == 0 {
      assert a + b == a;
    } else {
      KeysAppend(env, kind, a, b[..|b| - 1]);
      assert (a + b)[..|a + b| - 1] == a + b[..|b| - 1];
    }
  }

  /** What each logged event promises on its own: a run reads what is on
      disk and is handed the derived base directory; a write goes to the
      derived output path and carries the generated text. */
  predicate WellFormed(env: Env, e: Event) {
    match e
    case Claim(_) => true
    case Read(_) => true
    case Run(file, source, base) =>
      file in env.disk && source == env.disk[file] && base == BaseDir(file)
    case Write(file, out, text) =>
      && file in env.disk
      && out == OutputPath(file)
      && env.writable(out)
      && env.pipeline(env.disk[file], BaseDir(file)).output == Some(text)
  }

  /** The log segment `d`, run from registry `before`, leaves registry
      `after`: the registry grows by exactly the keys `d` claims, never
      holds a key twice, and within `d` every key is read, run and written
      at most once, and only if `d` itself claimed it. */
  predicate Effects(env: Env, before: seq<string>, d: seq<Event>, after: seq<string>) {
    && after == before + Claims(d)
    && NoDup(after)
    && (forall i :: 0 <= i < |d| ==> WellFormed(env, d[i]))
    && (forall kind: Kind :: NoDup(Keys(env, kind, d)))
    && (forall kind: Kind, k :: k in Keys(env, kind, d) ==> k in Claims(d))
  }

  /** The process-wide invariant: everything logged since start-up. */
  predicate Valid(env: Env, st: State) {
    Effects(env, [], st.log, st.compiled)
  }

  lemma EffectsCompose(env: Env, a: seq<string>, d1: seq<Event>, b: seq<string>, d2: seq<Event>, c: seq<string>)
    requires Effects(env, a, d1, b) && Effects(env, b, d2, c)
    ensures Effects(env, a, d1 + d2, c)
  {
    ClaimsAppend(d1, d2);
    NoDupAppend(b, Claims(d2));
    forall kind: Kind
      ensures NoDup(Keys(env, kind, d1 + d2))
      ensures forall k :: k in Keys(env, kind, d1 + d2) ==> k in Claims(d1 + d2)
    {
      KeysAppend(env, kind, d1, d2);
      forall x | x in Keys(env, kind, d1) ensures x !in Keys(env, kind, d2) {
        assert x in Claims(d1);
        assert x in b;
      }
      NoDupAppend(Keys(env, kind, d1), Keys(env, kind, d2));
    }
    forall i | 0 <= i < |d1 + d2| ensures WellFormed(env, (d1 + d2)[i]) {
      if i >= |d1| {
        assert (d1 + d2)[i] == d2[i - |d1|];
      }
    }
  }

  lemma EffectsEmpty(env: Env, c: seq<string>)
    requires NoDup(c)
    ensures Effects(env, c, [], c)
  {
  }

  lemma ClaimsSingle(e: Event)
    ensures Claims([e]) == if e.Claim? then [e.key] else []
  {
    assert [e][..0] == [];
  }

  lemma KeysSingle(env: Env, kind: Kind, e: Event)
    ensures Keys(env, kind, [e]) == KeyOf(env, kind, e)
  {
    assert [e][..0] == [];
  }

  /** A segment that claims one new key and reads, runs or writes only it. */
  lemma SingleKeySegment(env: Env, c: seq<string>, d: seq<Event>, k: string)
    requires NoDup(c) && k !in c
    requires Claims(d) == [k]
    requires forall i :: 0 <= i < |d| ==> WellFormed(env, d[i])
    requires forall kind: Kind :: Keys(env, kind, d) == [] || Keys(env, kind, d) == [k]
    ensures Effects(env, c, d, c + [k])
  {
    NoDupAppend(c, [k]);
  }

  /** The segment a compilation logs before its re-entrant calls, on its
      own: the key is claimed, read and run on, nothing else. */
  lemma OpeningSegment(env: Env, c: seq<string>, f: string)
    requires NoDup(c) && env.normalize(f) !in c && f in env.disk
    ensures var d := [Claim(env.normalize(f)), Read(f), Run(f, env.disk[f], BaseDir(f))];
      && Effects(env, c, d, c + [env.normalize(f)])
      && Claims(d) == [env.normalize(f)]
      && Keys(env, Reading, d) == [env.normalize(f)]
      && Keys(env, Running, d) == [env.normalize(f)]
      && Keys(env, Writing, d) == []
  {
    var k := env.normalize(f);
    var d := [Claim(k), Read(f), Run(f, env.disk[f], BaseDir(f))];
    OpeningClaims(env, f);
    OpeningWellFormed(env, f);
    forall kind: Kind ensures Keys(env, kind, d) == [] || Keys(env, kind, d) == [k] {
      OpeningKeys(env, kind, f);
    }
    OpeningKeys(env, Reading, f);
    OpeningKeys(env, Running, f);
    OpeningKeys(env, Writing, f);
    SingleKeySegment(env, c, d, k);
  }

  lemma OpeningClaims(env: Env, f: string)
    requires f in env.disk
    ensures Claims([Claim(env.normalize(f)), Read(f), Run(f, env.disk[f], BaseDir(f))]) == [env.normalize(f)]
  {
    var c0, r, u := Claim(env.normalize(f)), Read(f), Run(f, env.disk[f], BaseDir(f));
    assert [c0, r, u] == [c0, r] + [u];
    ClaimClaims(f, env.normalize(f));
    ClaimsAppend([c0, r], [u]);
    ClaimsSingle(u);
  }

  lemma OpeningWellFormed(env: Env, f: string)
    requires f in env.disk
    ensures var d := [Claim(env.normalize(f)), Read(f), Run(f, env.disk[f], BaseDir(f))];
      forall i :: 0 <= i < |d| ==> WellFormed(env, d[i])
  {
    var d := [Claim(env.normalize(f)), Read(f), Run(f, env.disk[f], BaseDir(f))];
    forall i | 0 <= i < |d| ensures WellFormed(env, d[i]) {
      assert d[i] == d[0] || d[i] == d[1] || d[i] == d[2];
    }
  }

  lemma OpeningKeys(env: Env, kind: Kind, f: string)
    requires f in env.disk
    ensures Keys(env, kind, [Claim(env.normalize(f)), Read(f), Run(f, env.disk[f], BaseDir(f))])
            == if kind == Writing then [] else [env.normalize(f)]
  {
    var c0, r, u := Claim(env.normalize(f)), Read(f), Run(f, env.disk[f], BaseDir(f));
    assert [c0, r, u] == [c0, r] + [u];
    ClaimKeys(env, kind, f);
    KeysAppend(env, kind, [c0, r], [u]);
    KeysSingle(env, kind, u);
  }

  /** The events a compilation logs before its re-entrant calls. */
  lemma OpenedEffects(env: Env, st: State, f: string)
    requires NoDup(st.compiled) && env.normalize(f) !in st.compiled && f in env.disk
    ensures Opened(env, st, f).log[|st.log|..] == [Claim(env.normalize(f)), Read(f), Run(f, env.disk[f], BaseDir(f))]
    ensures Effects(env, st.compiled, Opened(env, st, f).log[|st.log|..], Opened(env, st, f).compiled)
    ensures Claims(Opened(env, st, f).log[|st.log|..]) == [env.normalize(f)]
    ensures Keys(env, Reading, Opened(env, st, f).log[|st.log|..]) == [env.normalize(f)]
    ensures Keys(env, Running, Opened(env, st, f).log[|st.log|..]) == [env.normalize(f)]
    ensures Keys(env, Writing, Opened(env, st, f).log[|st.log|..]) == []
  {
    var d := [Claim(env.normalize(f)), Read(f), Run(f, env.disk[f], BaseDir(f))];
    assert Opened(env, st, f).log == st.log + d;
    assert Opened(env, st, f).log[|st.log|..] == d;
    OpeningSegment(env, st.compiled, f);
  }

  /** The events of a failed read: the key is claimed and read. */
  lemma ClaimedEffects(env: Env, st: State, f: string)
    requires NoDup(st.compiled) && env.normalize(f) !in st.compiled
    ensures Claimed(env, st, f).log[|st.log|..] == [Claim(env.normalize(f)), Read(f)]
    ensures Effects(env, st.compiled, Claimed(env, st, f).log[|st.log|..], Claimed(env, st, f).compiled)
    ensures Keys(env, Reading, Claimed(env, st, f).log[|st.log|..]) == [env.normalize(f)]
    ensures Keys(env, Running, Claimed(env, st, f).log[|st.log|..]) == []
    ensures Keys(env, Writing, Claimed(env, st, f).log[|st.log|..]) == []
  {
    var d := [Claim(env.normalize(f)), Read(f)];
    assert Claimed(env, st, f).log[|st.log|..] == d;
    ClaimSegment(env, st.compiled, f);
  }

  /** The segment of a failed read, on its own. */
  lemma ClaimSegment(env: Env, c: seq<string>, f: string)
    requires NoDup(c) && env.normalize(f) !in c
    ensures var d := [Claim(env.normalize(f)), Read(f)];
      && Effects(env, c, d, c + [env.normalize(f)])
      && Keys(env, Reading, d) == [env.normalize(f)]
      && Keys(env, Running, d) == []
      && Keys(env, Writing, d) == []
  {
    var k := env.normalize(f);
    var d := [Claim(k), Read(f)];
    ClaimClaims(f, k);
    forall kind: Kind ensures Keys(env, kind, d) == [] || Keys(env, kind, d) == [k] {
      ClaimKeys(env, kind, f);
    }
    ClaimKeys(env, Reading, f);
    ClaimKeys(env, Running, f);
    ClaimKeys(env, Writing, f);
    SingleKeySegment(env, c, d, k);
  }

  lemma ClaimClaims(f: string, k: string)
    ensures Claims([Claim(k), Read(f)]) == [k]
  {
    assert [Claim(k), Read(f)] == [Claim(k)] + [Read(f)];
    ClaimsSingle(Claim(k)); ClaimsSingle(Read(f));
    ClaimsAppend([Claim(k)], [Read(f)]);
  }

  lemma ClaimKeys(env: Env, kind: Kind, f: string)
    ensures Keys(env, kind, [Claim(env.normalize(f)), Read(f)]) == if kind == Reading then [env.normalize(f)] else []
  {
    var c, r := Claim(env.normalize(f)), Read(f);
    assert [c, r] == [c] + [r];
    KeysSingle(env, kind, c); KeysSingle(env, kind, r);
    KeysAppend(env, kind, [c], [r]);
  }

  /** The state after the re-entrant calls of the compilation of `f`. */
  predicate AfterNested(env: Env, st: State, f: string, sub: Step)
    requires f in env.disk
  {
    var o := Opened(env, st, f);
    && o.log <= sub.state.log
    && Effects(env, st.compiled, sub.state.log[|st.log|..], sub.state.compiled)
    && env.normalize(f) in Claims(sub.state.log[|st.log|..])
    && Keys(env, Reading, sub.state.log[|st.log|..]) == [env.normalize(f)] + Keys(env, Reading, sub.state.log[|o.log|..])
    && Keys(env, Running, sub.state.log[|st.log|..]) == [env.normalize(f)] + Keys(env, Running, sub.state.log[|o.log|..])
    && Keys(env, Writing, sub.state.log[|st.log|..]) == Keys(env, Writing, sub.state.log[|o.log|..])
    && env.normalize(f) !in Keys(env, Writing, sub.state.log[|o.log|..])
  }

  /** The log grows in two steps: what the second step adds comes after
      what the first step adds. */
  lemma SplitGrowth(log0: seq<Event>, log1: seq<Event>, log2: seq<Event>)
    requires log0 <= log1 <= log2
    ensures log2[|log0|..] == log1[|log0|..] + log2[|log1|..]
  {
    assert log2[..|log1|] == log1;
  }

  /** The effects of a compilation's opening events followed by those of
      its re-entrant calls. */
  lemma ComposeOpening(env: Env, c0: seq<string>, opening: seq<Event>, c1: seq<string>,
                       nested: seq<Event>, c2: seq<string>, key: string)
    requires Effects(env, c0, opening, c1) && Effects(env, c1, nested, c2)
    requires c1 == c0 + [key] && Claims(opening) == [key]
    requires Keys(env, Reading, opening) == [key] && Keys(env, Running, opening) == [key]
    requires Keys(env, Writing, opening) == []
    ensures Effects(env, c0, opening + nested, c2)
    ensures key in Claims(opening + nested)
    ensures Keys(env, Reading, opening + nested) == [key] + Keys(env, Reading, nested)
    ensures Keys(env, Running, opening + nested) == [key] + Keys(env, Running, nested)
    ensures Keys(env, Writing, opening + nested) == Keys(env, Writing, nested)
    ensures key !in Keys(env, Writing, nested)
  {
    EffectsCompose(env, c0, opening, c1, nested, c2);
    ClaimsAppend(opening, nested);
    KeysAppend(env, Reading, opening, nested);
    KeysAppend(env, Running, opening, nested);
    KeysAppend(env, Writing, opening, nested);
    NoDupAppend(c1, Claims(nested));
    assert key in c1;
  }

  lemma NestedEffects(env: Env, st: State, f: string, gen: Generated)
    requires NoDup(st.compiled) && env.normalize(f) !in st.compiled && f in env.disk
    requires Pending(env, Opened(env, st, f).compiled) < Pending(env, st.compiled)
    decreases Pending(env, st.compiled), 0, 0
    ensures AfterNested(env, st, f, CompileAll(env, Opened(env, st, f), gen.refs))
  {
    var o := Opened(env, st, f);
    OpenedEffects(env, st, f);
    CompileAllEffects(env, o, gen.refs);
    AfterNestedIntro(env, st, f, CompileAll(env, o, gen.refs));
  }

  /** The opening events followed by any segment with its own effects. */
  lemma AfterNestedIntro(env: Env, st: State, f: string, sub: Step)
    requires NoDup(st.compiled) && env.normalize(f) !in st.compiled && f in env.disk
    requires Opened(env, st, f).compiled <= sub.state.compiled && Opened(env, st, f).log <= sub.state.log
    requires Effects(env, Opened(env, st, f).compiled, sub.state.log[|Opened(env, st, f).log|..], sub.state.compiled)
    ensures AfterNested(env, st, f, sub)
  {
    var key := env.normalize(f);
    var o := Opened(env, st, f);
    var opening, nested := o.log[|st.log|..], sub.state.log[|o.log|..];
    OpenedEffects(env, st, f);
    SplitGrowth(st.log, o.log, sub.state.log);
    assert sub.state.log[|st.log|..] == opening + nested;
    ComposeOpening(env, st.compiled, opening, o.compiled, nested, sub.state.compiled, key);
  }

  lemma FinishEffects(env: Env, st: State, f: string, gen: Generated, sub: Step)
    requires f in env.disk && gen == env.pipeline(env.disk[f], BaseDir(f))
    requires AfterNested(env, st, f, sub)
    ensures var r := Finish(env, f, gen, sub);
      && Effects(env, st.compiled, r.state.log[|st.log|..], r.state.compiled)
      && Keys(env, Reading, r.state.log[|st.log|..]) == Keys(env, Reading, sub.state.log[|st.log|..])
      && Keys(env, Running, r.state.log[|st.log|..]) == Keys(env, Running, sub.state.log[|st.log|..])
      && (env.normalize(f) in Keys(env, Writing, r.state.log[|st.log|..]) <==> r.outcome == Done)
  {
    var r := Finish(env, f, gen, sub);
    var d := sub.state.log[|st.log|..];
    if !sub.outcome.Fatal? && gen.output.Some? && env.writable(OutputPath(f)) {
      var w := Write(f, OutputPath(f), gen.output.value);
      assert r.state.log[|st.log|..] == d + [w];
      ClosingEffects(env, st.compiled, d, sub.state.compiled, w);
    } else {
      assert r.state == sub.state;
    }
  }

  /** Appending the write of a key that the segment claimed and has not
      written yet: the write is recorded and nothing else changes. */
  lemma ClosingEffects(env: Env, c: seq<string>, d: seq<Event>, c2: seq<string>, w: Event)
    requires Effects(env, c, d, c2)
    requires w.Write? && WellFormed(env, w)
    requires env.normalize(w.file) in Claims(d) && env.normalize(w.file) !in Keys(env, Writing, d)
    ensures Effects(env, c, d + [w], c2)
    ensures Keys(env, Reading, d + [w]) == Keys(env, Reading, d)
    ensures Keys(env, Running, d + [w]) == Keys(env, Running, d)
    ensures env.normalize(w.file) in Keys(env, Writing, d + [w])
  {
    ClosingKeys(env, c, d, c2, w);
    ClosingClaims(d, w);
    WellFormedAppend(env, d, w);
    ClosingCovered(env, d, w);
  }

  lemma ClosingClaims(d: seq<Event>, w: Event)
    requires w.Write?
    ensures Claims(d + [w]) == Claims(d)
  {
    ClaimsAppend(d, [w]);
    ClaimsSingle(w);
  }

  lemma ClosingCovered(env: Env, d: seq<Event>, w: Event)
    requires w.Write? && env.normalize(w.file) in Claims(d)
    requires forall kind: Kind, k :: k in Keys(env, kind, d) ==> k in Claims(d)
    requires forall kind: Kind :: Keys(env, kind, d + [w]) == Keys(env, kind, d) + (if kind == Writing then [env.normalize(w.file)] else [])
    requires Claims(d + [w]) == Claims(d)
    ensures forall kind: Kind, k :: k in Keys(env, kind, d + [w]) ==> k in Claims(d + [w])
  {
    forall kind: Kind, x | x in Keys(env, kind, d + [w]) ensures x in Claims(d + [w]) {
      assert x in Keys(env, kind, d) || x == env.normalize(w.file);
    }
  }

  lemma WellFormedAppend(env: Env, d: seq<Event>, w: Event)
    requires forall i :: 0 <= i < |d| ==> WellFormed(env, d[i])
    requires WellFormed(env, w)
    ensures forall i :: 0 <= i < |d + [w]| ==> WellFormed(env, (d + [w])[i])
  {
    forall i | 0 <= i < |d + [w]| ensures WellFormed(env, (d + [w])[i]) {
      if i < |d| {
        assert (d + [w])[i] == d[i];
      } else {
        assert (d + [w])[i] == w;
      }
    }
  }

  lemma ClosingKeys(env: Env, c: seq<string>, d: seq<Event>, c2: seq<string>, w: Event)
    requires Effects(env, c, d, c2)
    requires w.Write?
    requires env.normalize(w.file) in Claims(d) && env.normalize(w.file) !in Keys(env, Writing, d)
    ensures forall kind: Kind :: Keys(env, kind, d + [w]) == Keys(env, kind, d) + (if kind == Writing then [env.normalize(w.file)] else [])
    ensures forall kind: Kind :: NoDup(Keys(env, kind, d + [w]))
  {
    forall kind: Kind
      ensures Keys(env, kind, d + [w]) == Keys(env, kind, d) + (if kind == Writing then [env.normalize(w.file)] else [])
      ensures NoDup(Keys(env, kind, d + [w]))
    {
      KeysAppend(env, kind, d, [w]);
      KeysSingle(env, kind, w);
      if kind == Writing {
        NoDupAppend(Keys(env, kind, d), [env.normalize(w.file)]);
      }
    }
  }

  /** The effects of one call, by induction together with CompileAll: the
      registry grows by what the call claims, and every key the call reads,
      runs or writes it claimed itself, at most once each. */
  lemma {:induction false} CompileEffects(env: Env, st: State, f: string)
    requires NoDup(st.compiled)
    decreases Pending(env, st.compiled), 0, 1
    ensures Effects(env, st.compiled, Compile(env, st, f).state.log[|st.log|..], Compile(env, st, f).state.compiled)
  {
    var r := Compile(env, st, f);
    if env.normalize(f) in st.compiled {
      assert r.state.log[|st.log|..] == [];
      EffectsEmpty(env, st.compiled);
    } else if f !in env.disk {
      ClaimedEffects(env, st, f);
    } else {
      var gen := env.pipeline(env.disk[f], BaseDir(f));
      PendingShrinks(env, st.compiled, f);
      NestedEffects(env, st, f, gen);
      var sub := CompileAll(env, Opened(env, st, f), gen.refs);
      FinishEffects(env, st, f, gen, sub);
      assert r == Finish(env, f, gen, sub);
    }
  }

  /** A call that claims its key reads that file first, runs the pipeline
      on it exactly when the read succeeds, and writes its output exactly
      when it returns Done; each of these happens once. */
  lemma CompileOwnKey(env: Env, st: State, f: string)
    requires NoDup(st.compiled) && env.normalize(f) !in st.compiled
    ensures var r := Compile(env, st, f);
      var d := r.state.log[|st.log|..];
      && Keys(env, Reading, d) != [] && Keys(env, Reading, d)[0] == env.normalize(f)
      && (env.normalize(f) in Keys(env, Running, d) <==> f in env.disk)
      && (env.normalize(f) in Keys(env, Writing, d) <==> r.outcome == Done)
      && forall kind: Kind :: NoDup(Keys(env, kind, d))
  {
    var r := Compile(env, st, f);
    var key := env.normalize(f);
    CompileEffects(env, st, f);
    if f !in env.disk {
      ClaimedEffects(env, st, f);
    } else {
      var gen := env.pipeline(env.disk[f], BaseDir(f));
      PendingShrinks(env, st.compiled, f);
      NestedEffects(env, st, f, gen);
      var sub := CompileAll(env, Opened(env, st, f), gen.refs);
      FinishEffects(env, st, f, gen, sub);
      assert r == Finish(env, f, gen, sub);
      var d := r.state.log[|st.log|..];
      assert key in Keys(env, Running, d);
    }
  }

  lemma {:induction false} CompileAllEffects(env: Env, st: State, refs: seq<string>)
    requires NoDup(st.compiled)
    decreases Pending(env, st.compiled), 1, |refs|
    ensures Effects(env, st.compiled, CompileAll(env, st, refs).state.log[|st.log|..], CompileAll(env, st, refs).state.compiled)
  {
    if |refs| == 0 {
      assert st.log[|st.log|..] == [];
      EffectsEmpty(env, st.compiled);
    } else {
      var first := Compile(env, st, refs[0]);
      CompileEffects(env, st, refs[0]);
      if !first.outcome.Fatal? {
        PendingMonotone(env, st.compiled, first.state.compiled);
        CompileAllEffects(env, first.state, refs[1..]);
        var rest := CompileAll(env, first.state, refs[1..]);
        SplitGrowth(st.log, first.state.log, rest.state.log);
        EffectsCompose(env, st.compiled, first.state.log[|st.log|..], first.state.compiled,
                       rest.state.log[|first.state.log|..], rest.state.compiled);
      }
    }
  }

  // ---------------------------------------------------------------------
  // What a successful call has done

  /** The re-entrant calls, when none of them fails, have registered every
      file the pipeline referred to. */
  lemma {:induction false} CompileAllRegistersRefs(env: Env, st: State, refs: seq<string>)
    decreases |refs|
    ensures var r := CompileAll(env, st, refs);
      r.outcome == Done ==> forall g :: g in refs ==> env.normalize(g) in r.state.compiled
  {
    if |refs| > 0 {
      var first := Compile(env, st, refs[0]);
      if !first.outcome.Fatal? {
        var rest := CompileAll(env, first.state, refs[1..]);
        CompileSteps(env, st, refs[0]);
        CompileAllRegistersRefs(env, first.state, refs[1..]);
        if rest.outcome == Done {
          PrefixContains(first.state.compiled, rest.state.compiled, env.normalize(refs[0]));
          forall g | g in refs ensures env.normalize(g) in rest.state.compiled {
            if g != refs[0] {
              assert g in refs[1..];
            }
          }
        }
      }
    }
  }

  /** A successful call for a new, readable file has registered every file
      that file's source refers to. */
  lemma CompileRegistersRefs(env: Env, st: State, f: string)
    requires env.normalize(f) !in st.compiled && f in env.disk
    ensures var r := Compile(env, st, f);
      r.outcome == Done ==>
        forall g :: g in env.pipeline(env.disk[f], BaseDir(f)).refs ==> env.normalize(g) in r.state.compiled
  {
    var gen := env.pipeline(env.disk[f], BaseDir(f));
    var sub := CompileAll(env, Opened(env, st, f), gen.refs);
    assert Compile(env, st, f) == Finish(env, f, gen, sub);
    CompileAllRegistersRefs(env, Opened(env, st, f), gen.refs);
  }

  /** Every key the segment claims, it also writes. */
  predicate AllWritten(env: Env, d: seq<Event>) {
    forall k :: k in Claims(d) ==> k in Keys(env, Writing, d)
  }

  lemma WrittenCompose(env: Env, a: seq<Event>, b: seq<Event>)
    requires AllWritten(env, a) && AllWritten(env, b)
    ensures AllWritten(env, a + b)
  {
    ClaimsAppend(a, b);
    KeysAppend(env, Writing, a, b);
  }

  /** A compilation's opening events, its re-entrant calls, and its write. */
  lemma WrittenAround(env: Env, opening: seq<Event>, nested: seq<Event>, w: Event, key: string)
    requires Claims(opening) == [key] && Keys(env, Writing, opening) == []
    requires w.Write? && env.normalize(w.file) == key
    requires AllWritten(env, nested)
    ensures AllWritten(env, opening + nested + [w])
  {
    ClaimsAppend(opening, nested);
    ClaimsAppend(opening + nested, [w]);
    ClaimsSingle(w);
    KeysAppend(env, Writing, opening, nested);
    KeysAppend(env, Writing, opening + nested, [w]);
    KeysSingle(env, Writing, w);
  }

  /** A successful call ends with the write after all its own events. */
  lemma DoneSegment(env: Env, st: State, f: string, gen: Generated, sub: Step)
    requires f in env.disk
    requires Opened(env, st, f).log <= sub.state.log
    requires Finish(env, f, gen, sub).outcome == Done
    ensures Finish(env, f, gen, sub).state.log[|st.log|..]
         == [Claim(env.normalize(f)), Read(f), Run(f, env.disk[f], BaseDir(f))]
            + sub.state.log[|Opened(env, st, f).log|..]
            + [Write(f, OutputPath(f), gen.output.value)]
  {
    var o := Opened(env, st, f);
    var w := Write(f, OutputPath(f), gen.output.value);
    assert o.log == st.log + [Claim(env.normalize(f)), Read(f), Run(f, env.disk[f], BaseDir(f))];
    SplitGrowth(st.log, o.log, sub.state.log);
    assert Finish(env, f, gen, sub).state.log == sub.state.log + [w];
    assert (sub.state.log + [w])[|st.log|..] == sub.state.log[|st.log|..] + [w];
  }

  /** Every file a successful call claims, it writes; by induction together
      with CompileAllWritesClaims. */
  lemma {:induction false} CompileWritesClaims(env: Env, st: State, f: string)
    decreases Pending(env, st.compiled), 0, 1
    ensures var r := Compile(env, st, f);
      r.outcome == Done ==> AllWritten(env, r.state.log[|st.log|..])
  {
    var r := Compile(env, st, f);
    var key := env.normalize(f);
    if key in st.compiled {
      assert r.state.log[|st.log|..] == [];
    } else if f in env.disk {
      var gen := env.pipeline(env.disk[f], BaseDir(f));
      var o := Opened(env, st, f);
      PendingShrinks(env, st.compiled, f);
      CompileAllWritesClaims(env, o, gen.refs);
      var sub := CompileAll(env, o, gen.refs);
      assert r == Finish(env, f, gen, sub);
      if r.outcome == Done {
        DoneSegment(env, st, f, gen, sub);
        OpeningClaims(env, f);
        OpeningKeys(env, Writing, f);
        WrittenAround(env, [Claim(key), Read(f), Run(f, env.disk[f], BaseDir(f))],
                      sub.state.log[|o.log|..], Write(f, OutputPath(f), gen.output.value), key);
      }
    }
  }

  /** Every file the successful re-entrant calls claim, they write. */
  lemma {:induction false} CompileAllWritesClaims(env: Env, st: State, refs: seq<string>)
    decreases Pending(env, st.compiled), 1, |refs|
    ensures var r := CompileAll(env, st, refs);
      r.outcome == Done ==> AllWritten(env, r.state.log[|st.log|..])
  {
    if |refs| == 0 {
      assert st.log[|st.log|..] == [];
    } else {
      var first := Compile(env, st, refs[0]);
      if !first.outcome.Fatal? {
        CompileWritesClaims(env, st, refs[0]);
        PendingMonotone(env, st.compiled, first.state.compiled);
        CompileAllWritesClaims(env, first.state, refs[1..]);
        var rest := CompileAll(env, first.state, refs[1..]);
        SplitGrowth(st.log, first.state.log, rest.state.log);
        if rest.outcome == Done {
          WrittenCompose(env, first.state.log[|st.log|..], rest.state.log[|first.state.log|..]);
        }
      }
    }
  }

  /** A call that returns Done writes each file it claimed exactly once:
      the keys written are precisely the keys claimed, none twice. */
  lemma SuccessfulCallWritesEachClaimOnce(env: Env, st: State, f: string)
    requires NoDup(st.compiled)
    ensures var r := Compile(env, st, f);
      var d := r.state.log[|st.log|..];
      r.outcome == Done ==>
        && NoDup(Keys(env, Writing, d))
        && forall k :: k in Keys(env, Writing, d) <==> k in Claims(d)
  {
    CompileEffects(env, st, f);
    CompileWritesClaims(env, st, f);
  }

  // ---------------------------------------------------------------------
  // Properties of a whole run

  /** A freshly loaded module has an empty registry and has done nothing. */
  lemma InitialValid(env: Env)
    ensures Valid(env, State([], []))
  {
  }

  /** The state in which the pipeline starts on a newly claimed file
      satisfies the invariant. */
  lemma OpenedValid(env: Env, st: State, f: string)
    requires Valid(env, st) && env.normalize(f) !in st.compiled && f in env.disk
    ensures Valid(env, Opened(env, st, f))
  {
    var o := Opened(env, st, f);
    OpenedEffects(env, st, f);
    EffectsCompose(env, [], st.log, st.compiled, o.log[|st.log|..], o.compiled);
    assert st.log + o.log[|st.log|..] == o.log;
  }

  /** Every call keeps the process-wide invariant. */
  lemma CompilePreservesValid(env: Env, st: State, f: string)
    requires Valid(env, st)
    ensures Valid(env, Compile(env, st, f).state)
  {
    var r := Compile(env, st, f);
    CompileEffects(env, st, f);
    EffectsCompose(env, [], st.log, st.compiled, r.state.log[|st.log|..], r.state.compiled);
    assert st.log + r.state.log[|st.log|..] == r.state.log;
  }

  /** Where the event at position i sits among the keys of its kind. */
  lemma {:induction false} KeysAt(env: Env, kind: Kind, log: seq<Event>, i: int)
    requires 0 <= i < |log| && OfKind(kind, log[i])
    ensures |Keys(env, kind, log[..i])| < |Keys(env, kind, log)|
    ensures Keys(env, kind, log)[|Keys(env, kind, log[..i])|] == env.normalize(log[i].file)
    ensures |Keys(env, kind, log[..i])| < |Keys(env, kind, log[..i + 1])|
  {
    assert log[..i + 1][..i] == log[..i];
    assert log == log[..i + 1] + log[i + 1..];
    KeysAppend(env, kind, log[..i + 1], log[i + 1..]);
  }

  /** At most once per process: no two reads, no two pipeline runs and no
      two writes are ever for files with the same normalized path. */
  lemma AtMostOnce(env: Env, st: State, kind: Kind, i: int, j: int)
    requires Valid(env, st)
    requires 0 <= i < j < |st.log|
    requires OfKind(kind, st.log[i]) && OfKind(kind, st.log[j])
    ensures env.normalize(st.log[i].file) != env.normalize(st.log[j].file)
  {
    assert NoDup(Keys(env, kind, st.log));
    DistinctKeysAt(env, kind, st.log, i, j);
  }

  /** Two events of one kind in a log whose keys of that kind are
      distinct are for different normalized paths. */
  lemma DistinctKeysAt(env: Env, kind: Kind, log: seq<Event>, i: int, j: int)
    requires NoDup(Keys(env, kind, log))
    requires 0 <= i < j < |log|
    requires OfKind(kind, log[i]) && OfKind(kind, log[j])
    ensures env.normalize(log[i].file) != env.normalize(log[j].file)
  {
    var keys := Keys(env, kind, log);
    var p, q := |Keys(env, kind, log[..i])|, |Keys(env, kind, log[..j])|;
    KeysAt(env, kind, log, i);
    KeysAt(env, kind, log, j);
    KeysPrefixLonger(env, kind, log, i, j);
    assert keys[p] != keys[q];
  }

  /** A later prefix holds more keys of a kind than an earlier one if an
      event of that kind lies between them. */
  lemma KeysPrefixLonger(env: Env, kind: Kind, log: seq<Event>, i: int, j: int)
    requires 0 <= i < j <= |log| && OfKind(kind, log[i])
    ensures |Keys(env, kind, log[..i])| < |Keys(env, kind, log[..j])|
  {
    var a, b := log[..i + 1], log[i + 1..j];
    assert log[..j] == a + b;
    KeysAppend(env, kind, a, b);
    KeysAt(env, kind, log, i);
  }

  /** A call never reads, runs or writes a file whose key was claimed
      before it started: in particular, during the compilation of a file
      (whose key is claimed first), a re-entrant call for that file does
      nothing. */
  lemma CompileSkipsClaimedKeys(env: Env, st: State, f: string, kind: Kind, k: string)
    requires NoDup(st.compiled) && k in st.compiled
    ensures k !in Keys(env, kind, Compile(env, st, f).state.log[|st.log|..])
  {
    var r := Compile(env, st, f);
    CompileEffects(env, st, f);
    NoDupAppend(st.compiled, Claims(r.state.log[|st.log|..]));
  }

  /** Two calls whose paths normalize alike: the second does nothing,
      whatever the first one's outcome was. */
  lemma SecondCallIsNoop(env: Env, st: State, f: string, g: string)
    requires env.normalize(g) == env.normalize(f)
    ensures var first := Compile(env, st, f);
      Compile(env, first.state, g) == Step(first.state, Done)
  {
    CompileSteps(env, st, f);
    CompileSteps(env, Compile(env, st, f).state, g);
  }

  lemma {:induction false} RunKeysReadable(env: Env, log: seq<Event>)
    requires forall i :: 0 <= i < |log| ==> WellFormed(env, log[i])
    ensures forall k :: k in Keys(env, Running, log) ==> k in Universe(env)
  {
    if |log| > 0 {
      RunKeysReadable(env, log[..|log| - 1]);
      var e := log[|log| - 1];
      if e.Run? {
        assert WellFormed(env, e);
        assert env.normalize(e.file) in Universe(env);
      }
    }
  }

  /** However the files refer to each other, a run compiles (runs the
      pipeline on) no more files than there are distinct normalized paths
      of readable files. */
  lemma CompilationsBounded(env: Env, st: State)
    requires Valid(env, st)
    ensures |Keys(env, Running, st.log)| <= |Universe(env)|
  {
    RunKeysReadable(env, st.log);
    NoDupBounded(Keys(env, Running, st.log), Universe(env));
  }

  // ---------------------------------------------------------------------
  // A cyclic include graph: a.hcl refers to b.hcl, which refers back to a.hcl

  function CyclicEnv(): Env {
    Env(p => p,
        map["a.hcl" := "A", "b.hcl" := "B"],
        (source, base) => if source == "A" then Generated(["b.hcl"], Some("a();"))
                          else Generated(["a.hcl"], Some("b();")),
        out => true)
  }

  lemma CyclicPaths()
    ensures BaseDir("a.hcl") == "a.hcl" && BaseDir("b.hcl") == "b.hcl"
    ensures OutputPath("a.hcl") == "a.js" && OutputPath("b.hcl") == "b.js"
  {
    assert '/' !in "a.hcl" && '/' !in "b.hcl";
    assert "a" + SourceExt == "a.hcl" && "b" + SourceExt == "b.hcl";
    OutputPathSwapsExtension("a");
    OutputPathSwapsExtension("b");
  }

  /** a.hcl claimed, read, and its pipeline started. */
  function CycleStartedA(): State {
    State(["a.hcl"], [Claim("a.hcl"), Read("a.hcl"), Run("a.hcl", "A", "a.hcl")])
  }

  /** b.hcl claimed, read, and its pipeline started, from inside a.hcl's. */
  function CycleStartedB(): State {
    State(["a.hcl", "b.hcl"],
          CycleStartedA().log + [Claim("b.hcl"), Read("b.hcl"), Run("b.hcl", "B", "b.hcl")])
  }

  /** b.hcl written. */
  function CycleWroteB(): State {
    State(CycleStartedB().compiled, CycleStartedB().log + [Write("b.hcl", "b.js", "b();")])
  }

  /** b.hcl's reference back to a.hcl finds a.hcl claimed. */
  lemma CycleBackReferenceSkipped()
    ensures CompileAll(CyclicEnv(), CycleStartedB(), ["a.hcl"]) == Step(CycleStartedB(), Done)
  {
    assert IndexOf(CycleStartedB().compiled, "a.hcl") == 0;
    assert ["a.hcl"][1..] == [];
  }

  lemma CycleCompilesB()
    ensures CompileAll(CyclicEnv(), CycleStartedA(), ["b.hcl"]) == Step(CycleWroteB(), Done)
  {
    var env := CyclicEnv();
    CyclicPaths();
    assert Opened(env, CycleStartedA(), "b.hcl") == CycleStartedB();
    CycleBackReferenceSkipped();
    assert IndexOf(CycleStartedA().compiled, "b.hcl") == -1;
    assert Compile(env, CycleStartedA(), "b.hcl") == Step(CycleWroteB(), Done);
    assert ["b.hcl"][1..] == [];
  }

  /** Compiling a.hcl compiles b.hcl from inside it; b.hcl's call back into
      a.hcl does nothing; each file is read, run and written once. */
  lemma CyclicIncludesTerminate()
    ensures Compile(CyclicEnv(), State([], []), "a.hcl")
         == Step(State(["a.hcl", "b.hcl"],
                       [Claim("a.hcl"), Read("a.hcl"), Run("a.hcl", "A", "a.hcl"),
                        Claim("b.hcl"), Read("b.hcl"), Run("b.hcl", "B", "b.hcl"),
                        Write("b.hcl", "b.js", "b();"),
                        Write("a.hcl", "a.js", "a();")]),
                 Done)
  {
    CycleCompilesA();
    CycleLog();
  }

  lemma CycleLog()
    ensures CycleWroteA().log
         == [Claim("a.hcl"), Read("a.hcl"), Run("a.hcl", "A", "a.hcl"),
             Claim("b.hcl"), Read("b.hcl"), Run("b.hcl", "B", "b.hcl"),
             Write("b.hcl", "b.js", "b();"),
             Write("a.hcl", "a.js", "a();")]
  {
    var log := CycleWroteA().log;
    assert log == CycleStartedA().log + [Claim("b.hcl"), Read("b.hcl"), Run("b.hcl", "B", "b.hcl")]
                  + [Write("b.hcl", "b.js", "b();")] + [Write("a.hcl", "a.js", "a();")];
    assert |log| == 8;
    assert log[..3] == CycleStartedA().log;
    assert log[3] == Claim("b.hcl") && log[4] == Read("b.hcl") && log[5] == Run("b.hcl", "B", "b.hcl");
    assert log[6] == Write("b.hcl", "b.js", "b();") && log[7] == Write("a.hcl", "a.js", "a();");
  }

  /** a.hcl written, after b.hcl. */
  function CycleWroteA(): State {
    State(CycleWroteB().compiled, CycleWroteB().log + [Write("a.hcl", "a.js", "a();")])
  }

  lemma CycleCompilesA()
    ensures Compile(CyclicEnv(), State([], []), "a.hcl") == Step(CycleWroteA(), Done)
  {
    var env := CyclicEnv();
    CyclicPaths();
    assert IndexOf([], "a.hcl") == -1;
    assert Opened(env, State([], []), "a.hcl") == CycleStartedA();
    CycleCompilesB();
  }
}
