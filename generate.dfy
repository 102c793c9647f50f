/** The generation script: for every (model, example) pair, decide whether to
    skip it, run the model's command-line agent in a sandbox, and count the
    outcomes, with at most `concurrency` tasks in flight. */
module Generate {
  import opened Wrappers
  import opened ModelsConfig
  import opened GenerateArgs
  import Text

  /** A parsed example file. Its optional tags play no part here. */
  datatype ExampleSpec = ExampleSpec(id: string, title: string, prompt: string)

  datatype Task = Task(model: ModelConfig, spec: ExampleSpec)

  /** `loadExamples`' file filter: names ending in `.yaml`, in listing order
      (case-sensitive, so `.yml` and `.YAML` are not loaded). */
  function YamlFileNames(names: seq<string>): (r: seq<string>)
    ensures forall x :: x in r <==> x in names && Text.EndsWith(x, ".yaml")
    ensures |r| <= |names|
  {
    if names == [] then []
    else (if Text.EndsWith(names[0], ".yaml") then [names[0]] else []) + YamlFileNames(names[1..])
  }

  // ---------------------------------------------------------------------
  // The task list

  /** One model's row of tasks, one per example. */
  function Row(m: ModelConfig, es: seq<ExampleSpec>): (r: seq<Task>)
    ensures |r| == |es|
  {
    seq(|es|, j requires 0 <= j < |es| => Task(m, es[j]))
  }

  /** The task list, model-major: all examples for the first target, then
      all for the second, and so on. */
  function Tasks(ts: seq<ModelConfig>, es: seq<ExampleSpec>): (r: seq<Task>)
    ensures |r| == |ts| * |es|
  {
    if ts == [] then []
    else
      var init := Tasks(ts[..|ts| - 1], es);
      assert |init| + |es| == |ts| * |es| by {
        assert (|ts| - 1) * |es| + |es| == |ts| * |es|;
      }
      init + Row(ts[|ts| - 1], es)
  }

  /** Entry `i * |es| + j` of the task list pairs target `i` with example `j`. */
  lemma {:induction false} TaskAt(ts: seq<ModelConfig>, es: seq<ExampleSpec>, i: nat, j: nat)
    requires i < |ts| && j < |es|
    ensures i * |es| + j < |Tasks(ts, es)|
    ensures Tasks(ts, es)[i * |es| + j] == Task(ts[i], es[j])
    decreases |ts|
  {
    var n := |ts|;
    var init := ts[..n - 1];
    var e := |es|;
    assert Tasks(ts, es) == Tasks(init, es) + Row(ts[n - 1], es);
    assert |Tasks(init, es)| == (n - 1) * e;
    if i == n - 1 {
      assert i * e + j == |Tasks(init, es)| + j;
    } else {
      TaskAt(init, es, i, j);
      assert init[i] == ts[i];
    }
  }

  /** The nested loops of `main` that push every (model, example) pair. */
  method BuildTasks(ts: seq<ModelConfig>, es: seq<ExampleSpec>) returns (tasks: seq<Task>)
    ensures tasks == Tasks(ts, es)
  {
    tasks := [];
    var i := 0;
    while i < |ts|
      invariant 0 <= i <= |ts|
      invariant tasks == Tasks(ts[..i], es)
    {
      var j := 0;
      while j < |es|
        invariant 0 <= j <= |es|
        invariant tasks == Tasks(ts[..i], es) + Row(ts[i], es[..j])
      {
        assert Row(ts[i], es[..j + 1]) == Row(ts[i], es[..j]) + [Task(ts[i], es[j])];
        tasks := tasks + [Task(ts[i], es[j])];
        j := j + 1;
      }
      assert es[..j] == es;
      assert ts[..i + 1][..i] == ts[..i];
      i := i + 1;
    }
    assert ts[..i] == ts;
  }

  // ---------------------------------------------------------------------
  // The prompt

  const PromptIntro := "You are implementing a single self-contained HTML file.\n\n## App: "
  const PromptSpecHeading := "\n\n## Specification:\n"
  const PromptRequirements :=
    "\n\n## Requirements:\n"
    + "- Create a single index.html file with ALL CSS and JavaScript inlined\n"
    + "- The file must be fully self-contained\n"
    + "- You may use CDN links for libraries (e.g., Tailwind CSS, React, Three.js) if needed\n"
    + "- Place the file at: "
  /** Where the agent is told to write, relative to its sandbox. */
  const SandboxOutput := "output/index.html"
  const PromptClosing :=
    "\n- Do NOT create any other files\n\n"
    + "## Important:\n"
    + "This is a non-interactive session, so you will not be able to ask clarifying questions. Use your best judgment.\n\n"
    + "This implementation will be displayed in a competition alongside other AI models' implementations of the same specification. "
    + "Your implementation should be the highest quality, most polished, and most impressive version possible. Put your best foot forward.\n\n"
    + "Begin implementation now."

  /** The template: fixed text around the title and around the prompt. */
  function Fill(title: string, prompt: string, intro: string, heading: string, tail: string): string {
    intro + title + heading + prompt + tail
  }

  /** `buildPrompt`: the fixed template with the title and the example's
      prompt filled in. */
  function BuildPrompt(spec: ExampleSpec): (p: string)
    ensures PromptText(p, spec, PromptIntro, PromptSpecHeading, PromptRequirements, SandboxOutput, PromptClosing)
  {
    FillShape(spec, PromptIntro, PromptSpecHeading, PromptRequirements, SandboxOutput, PromptClosing);
    Fill(spec.title, spec.prompt, PromptIntro, PromptSpecHeading, PromptRequirements + SandboxOutput + PromptClosing)
  }

  /** The title comes right after the introduction, the prompt text and the
      output path occur in it, and the closing text ends it. */
  predicate PromptText(p: string, spec: ExampleSpec, intro: string, heading: string, reqs: string, out: string, closing: string) {
    Text.StartsWith(p, intro + spec.title + heading)
    && Text.Occurs(p, spec.prompt)
    && Text.Occurs(p, out)
    && Text.EndsWith(p, closing)
  }

  lemma FillShape(spec: ExampleSpec, intro: string, heading: string, reqs: string, out: string, closing: string)
    ensures PromptText(Fill(spec.title, spec.prompt, intro, heading, reqs + out + closing), spec, intro, heading, reqs, out, closing)
  {
    var head := intro + spec.title + heading;
    var p := Fill(spec.title, spec.prompt, intro, heading, reqs + out + closing);
    assert p == head + spec.prompt + (reqs + out + closing);
    assert p[..|head|] == head;
    Text.OccursMiddle(head, spec.prompt, reqs + out + closing);
    assert p == (head + spec.prompt + reqs) + out + closing;
    Text.OccursMiddle(head + spec.prompt + reqs, out, closing);
    assert p[|p| - |closing|..] == closing;
  }

  /** The template is injective in the prompt: for one title, the prompt text
      can be read back from the message. */
  lemma FillRecoversPrompt(title: string, p1: string, p2: string, intro: string, heading: string, tail: string)
    requires Fill(title, p1, intro, heading, tail) == Fill(title, p2, intro, heading, tail)
    ensures p1 == p2
  {
    var head := intro + title + heading;
    var s := Fill(title, p1, intro, heading, tail);
    assert s == head + p1 + tail;
    assert s == head + p2 + tail;
    assert |p1| == |p2|;
    assert p1 == s[|head|..|head| + |p1|] == p2;
  }

  lemma BuildPromptRecoversPrompt(a: ExampleSpec, b: ExampleSpec)
    requires a.title == b.title && BuildPrompt(a) == BuildPrompt(b)
    ensures a.prompt == b.prompt
  {
    FillRecoversPrompt(a.title, a.prompt, b.prompt, PromptIntro, PromptSpecHeading, PromptRequirements + SandboxOutput + PromptClosing);
  }

  // ---------------------------------------------------------------------
  // The command

  datatype Command = Command(cmd: string, args: seq<string>)

  /** `b` comes right after `a` somewhere in `args`. */
  predicate Follows(args: seq<string>, a: string, b: string) {
    exists k :: 0 <= k < |args| - 1 && args[k] == a && args[k + 1] == b
  }

  /** `buildCliCommand`: the program is the CLI family, the model follows
      `--model`, the prompt comes last, and each family has its own fixed
      flags. Any other family throws. */
  function BuildCliCommand(m: ModelConfig, prompt: string): (r: Result<Command>)
    ensures r.Ok? <==> m.cli in KnownClis
    ensures r.Err? ==> r.error == "Unknown CLI type: " + m.cli
    ensures r.Ok? ==>
      (r.value.cmd == m.cli && |r.value.args| > 0
       && r.value.args[|r.value.args| - 1] == prompt
       && Follows(r.value.args, "--model", m.model))
    ensures r.Ok? && m.cli == "claude" ==>
      (|r.value.args| == 7 && r.value.args[0] == "-p"
       && "--dangerously-skip-permissions" in r.value.args
       && Follows(r.value.args, "--permission-mode", "bypassPermissions"))
    ensures r.Ok? && m.cli == "codex" ==>
      (|r.value.args| == 5 && r.value.args[0] == "exec" && "--full-auto" in r.value.args)
    ensures r.Ok? && m.cli == "gemini" ==>
      (|r.value.args| == 5 && Follows(r.value.args, "--approval-mode", "yolo"))
  {
    if m.cli == "claude" then
      var a := ["-p", "--model", m.model, "--dangerously-skip-permissions", "--permission-mode", "bypassPermissions", prompt];
      assert a[1] == "--model" && a[2] == m.model;
      assert a[4] == "--permission-mode" && a[5] == "bypassPermissions";
      Ok(Command("claude", a))
    else if m.cli == "codex" then
      var a := ["exec", "--model", m.model, "--full-auto", prompt];
      assert a[1] == "--model" && a[2] == m.model;
      Ok(Command("codex", a))
    else if m.cli == "gemini" then
      var a := ["--model", m.model, "--approval-mode", "yolo", prompt];
      assert a[0] == "--model" && a[1] == m.model;
      assert a[2] == "--approval-mode" && a[3] == "yolo";
      Ok(Command("gemini", a))
    else Err("Unknown CLI type: " + m.cli)
  }

  /** No registry entry reaches the throwing branch. */
  lemma RegistryCommandsBuild(m: ModelConfig, prompt: string)
    requires m in Models
    ensures BuildCliCommand(m, prompt).Ok?
  {
    RegistryClisKnown();
  }

  // ---------------------------------------------------------------------
  // One task

  datatype Outcome = Skipped | Generated | Failed

  /** How the agent's process ended: its `close` code (`null` when a signal
      killed it) or an `error` event (for example a missing executable). */
  datatype ProcessEnd = Exited(code: int) | Killed | SpawnError

  /** What the outside world does during one task: whether the destination
      file already exists, whether the sandbox can be made (`mkdtemp`, then
      `git init` inside it, then the `output` directory), how the process
      ends, whether it left `output/index.html`, and whether copying it
      works. */
  datatype Environment = Environment(
    destExists: bool, mkdtempOk: bool, gitInitOk: bool, outputDirOk: bool,
    process: ProcessEnd, outputCreated: bool, copyOk: bool)

  /** One task's result and its effects: whether a sandbox was created, the
      process spawned, the output copied, and the sandbox removed. */
  datatype Attempt = Attempt(outcome: Outcome, sandbox: bool, spawned: bool, copied: bool, cleanedUp: bool)

  /** Everything before the `try` of `runCliInSandbox` succeeds. */
  predicate SandboxReady(env: Environment) {
    env.mkdtempOk && env.gitInitOk && env.outputDirOk
  }

  predicate Forced(opts: Options, id: string) {
    opts.forceAll || id in opts.force
  }

  /** The skip rule looks only at whether the file exists. */
  predicate ShouldSkip(destExists: bool, opts: Options, id: string) {
    destExists && !Forced(opts, id)
  }

  /** `generateApp` with `runCliInSandbox` inlined, once the prompt is
      built. Every thrown error is caught and reported as a failure. A
      failing `git init`, a failing `mkdir` and an unknown CLI family all
      throw after `mkdtemp` has made the sandbox but before the
      `try`/`finally` that removes it, so each leaves the sandbox behind. */
  function GenerateWithPrompt(m: ModelConfig, prompt: string, id: string, opts: Options, env: Environment): (a: Attempt)
    ensures a.outcome == Skipped <==> ShouldSkip(env.destExists, opts, id)
    ensures a.outcome == Skipped ==> !a.sandbox && !a.spawned
    ensures a.outcome == Generated <==>
      (!ShouldSkip(env.destExists, opts, id) && m.cli in KnownClis
       && SandboxReady(env) && env.process == Exited(0)
       && env.outputCreated && env.copyOk)
    ensures a.sandbox <==> !ShouldSkip(env.destExists, opts, id) && env.mkdtempOk
    ensures a.spawned <==>
      (!ShouldSkip(env.destExists, opts, id) && SandboxReady(env) && m.cli in KnownClis)
    ensures a.spawned ==> a.sandbox && a.cleanedUp
    ensures a.sandbox && !a.cleanedUp <==>
      (!ShouldSkip(env.destExists, opts, id) && env.mkdtempOk
       && (!env.gitInitOk || !env.outputDirOk || m.cli !in KnownClis))
    ensures a.copied <==> a.outcome == Generated
  {
    if ShouldSkip(env.destExists, opts, id) then Attempt(Skipped, false, false, false, false)
    else if !env.mkdtempOk then Attempt(Failed, false, false, false, false)
    else if !env.gitInitOk || !env.outputDirOk then Attempt(Failed, true, false, false, false)
    else
      var command := BuildCliCommand(m, prompt);
      if command.Err? then Attempt(Failed, true, false, false, false)
      else if env.process != Exited(0) || !env.outputCreated || !env.copyOk then Attempt(Failed, true, true, false, true)
      else Attempt(Generated, true, true, true, true)
  }

  /** `generateApp`: the existence check, then the prompt, then the run. */
  function GenerateApp(m: ModelConfig, spec: ExampleSpec, opts: Options, env: Environment): Attempt {
    GenerateWithPrompt(m, BuildPrompt(spec), spec.id, opts, env)
  }

  // ---------------------------------------------------------------------
  // Counting and the pool

  datatype Stats = Stats(skipped: nat, generated: nat, failed: nat)

  /** `stats[result]++`. */
  function Bump(st: Stats, o: Outcome): Stats {
    match o
    case Skipped => st.(skipped := st.skipped + 1)
    case Generated => st.(generated := st.generated + 1)
    case Failed => st.(failed := st.failed + 1)
  }

  /** The counts of a bag of outcomes. */
  function Tally(done: multiset<Outcome>): Stats {
    Stats(done[Skipped], done[Generated], done[Failed])
  }

  lemma TallyBump(done: multiset<Outcome>, o: Outcome)
    ensures Tally(done + multiset{o}) == Bump(Tally(done), o)
  {
  }

  /** Every outcome is counted once, under exactly one of the three names. */
  lemma {:induction false} TallySum(os: seq<Outcome>)
    ensures var t := Tally(multiset(os)); t.skipped + t.generated + t.failed == |os|
    decreases |os|
  {
    if os != [] {
      var init := os[..|os| - 1];
      var last := os[|os| - 1];
      TallySum(init);
      assert os == init + [last];
      assert multiset(os) == multiset(init) + multiset{last};
      TallyBump(multiset(init), last);
    }
  }

  /** Every task in the pool is one of the first `bound` tasks. */
  predicate Below(pool: seq<nat>, bound: nat) {
    forall k :: 0 <= k < |pool| ==> pool[k] < bound
  }

  /** The outcomes of the tasks in the pool. */
  function InFlight(pool: seq<nat>, outcomes: seq<Outcome>): (r: seq<Outcome>)
    requires Below(pool, |outcomes|)
    ensures |r| == |pool|
  {
    seq(|pool|, k requires 0 <= k < |pool| => outcomes[pool[k]])
  }

  /** The tasks admitted so far are either counted or still in the pool. */
  ghost predicate Accounted(done: multiset<Outcome>, pool: seq<nat>, outcomes: seq<Outcome>, next: nat)
    requires next <= |outcomes| && Below(pool, |outcomes|)
  {
    done + multiset(InFlight(pool, outcomes)) == multiset(outcomes[..next])
  }

  lemma InFlightRemove(pool: seq<nat>, idx: nat, outcomes: seq<Outcome>)
    requires idx < |pool| && Below(pool, |outcomes|)
    ensures Below(pool[..idx] + pool[idx + 1..], |outcomes|)
    ensures multiset(InFlight(pool, outcomes))
      == multiset(InFlight(pool[..idx] + pool[idx + 1..], outcomes)) + multiset{outcomes[pool[idx]]}
  {
    var a := InFlight(pool, outcomes);
    var rest := pool[..idx] + pool[idx + 1..];
    assert forall k :: 0 <= k < |rest| ==> rest[k] == if k < idx then pool[k] else pool[k + 1];
    assert a == a[..idx] + [a[idx]] + a[idx + 1..];
    assert InFlight(rest, outcomes) == a[..idx] + a[idx + 1..];
  }

  /** `pool.push(promise)` for the next task in list order. */
  method Admit(pool: seq<nat>, ghost done: multiset<Outcome>, outcomes: seq<Outcome>, next: nat)
    returns (grown: seq<nat>)
    requires next < |outcomes| && Below(pool, next) && Accounted(done, pool, outcomes, next)
    ensures grown == pool + [next]
    ensures Below(grown, next + 1) && Accounted(done, grown, outcomes, next + 1)
  {
    grown := pool + [next];
    assert InFlight(grown, outcomes) == InFlight(pool, outcomes) + [outcomes[next]];
    assert outcomes[..next + 1] == outcomes[..next] + [outcomes[next]];
  }

  /** The promise pool of `main`, run as a sequential scheduler: each task is
      admitted in list order; whenever the pool holds `limit` tasks, one of
      them (the one `pick` chooses) completes and is counted; at the end the
      rest complete. The result counts every task once, and the pool never
      holds more than `limit` tasks. */
  method RunPool(outcomes: seq<Outcome>, limit: nat, pick: seq<nat> -> nat) returns (stats: Stats, peak: nat)
    requires limit >= 1
    ensures stats == Tally(multiset(outcomes))
    ensures peak <= limit
    ensures |outcomes| > 0 ==> peak >= 1
  {
    stats := Stats(0, 0, 0);
    peak := 0;
    var pool: seq<nat> := [];
    ghost var done: multiset<Outcome> := multiset{};
    var next := 0;
    while next < |outcomes|
      invariant 0 <= next <= |outcomes|
      invariant |pool| < limit && peak <= limit
      invariant next > 0 ==> peak >= 1
      invariant Below(pool, next) && Accounted(done, pool, outcomes, next)
      invariant stats == Tally(done)
    {
      pool := Admit(pool, done, outcomes, next);
      next := next + 1;
      if |pool| > peak {
        peak := |pool|;
      }
      if |pool| >= limit {
        pool, stats, done := Settle(pool, stats, done, outcomes, pick, next);
      }
    }
    while |pool| > 0
      invariant Below(pool, |outcomes|) && Accounted(done, pool, outcomes, |outcomes|)
      invariant stats == Tally(done)
      decreases |pool|
    {
      pool, stats, done := Settle(pool, stats, done, outcomes, pick, |outcomes|);
    }
    assert outcomes[..|outcomes|] == outcomes;
  }

  /** One awaited completion: the task `pick` chooses leaves the pool (the
      `splice`) and its outcome is counted. */
  method Settle(pool: seq<nat>, stats: Stats, ghost done: multiset<Outcome>, outcomes: seq<Outcome>,
                pick: seq<nat> -> nat, ghost next: nat)
    returns (rest: seq<nat>, counted: Stats, ghost doneAfter: multiset<Outcome>)
    requires |pool| > 0 && next <= |outcomes| && Below(pool, next) && Accounted(done, pool, outcomes, next)
    requires stats == Tally(done)
    ensures |rest| == |pool| - 1
    ensures Below(rest, next) && Accounted(doneAfter, rest, outcomes, next)
    ensures counted == Tally(doneAfter)
  {
    var idx := pick(pool) % |pool|;
    var t := pool[idx];
    InFlightRemove(pool, idx, outcomes);
    TallyBump(done, outcomes[t]);
    counted := Bump(stats, outcomes[t]);
    doneAfter := done + multiset{outcomes[t]};
    rest := pool[..idx] + pool[idx + 1..];
    assert forall k :: 0 <= k < |rest| ==> rest[k] == if k < idx then pool[k] else pool[k + 1];
  }

  /** The outcome of every task, each under its own environment. */
  function Outcomes(tasks: seq<Task>, opts: Options, env: Task -> Environment): (r: seq<Outcome>)
    ensures |r| == |tasks|
  {
    seq(|tasks|, i requires 0 <= i < |tasks| => GenerateApp(tasks[i].model, tasks[i].spec, opts, env(tasks[i])).outcome)
  }

  /** `main` after loading the examples: parse, plan, run, count. */
  method Run(args: seq<string>, examples: seq<ExampleSpec>, env: Task -> Environment, pick: seq<nat> -> nat)
    returns (stats: Stats, peak: nat)
    ensures stats.skipped + stats.generated + stats.failed
      == |TargetModels(ParsedOptions(args).modelFilter, Models)| * |examples|
    ensures stats == Tally(multiset(Outcomes(Tasks(TargetModels(ParsedOptions(args).modelFilter, Models), examples),
      ParsedOptions(args), env)))
    ensures peak <= ParsedOptions(args).concurrency
    ensures |TargetModels(ParsedOptions(args).modelFilter, Models)| * |examples| > 0 ==> peak >= 1
  {
    var opts := ParseArgs(args);
    var targets := TargetModels(opts.modelFilter, Models);
    var tasks := BuildTasks(targets, examples);
    var outcomes := Outcomes(tasks, opts, env);
    stats, peak := RunPool(outcomes, opts.concurrency, pick);
    TallySum(outcomes);
  }
}
