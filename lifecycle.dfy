/**
 * The runner's main sequence: load the jobs, exit when there are none,
 * otherwise register one cron entry per job, start the scheduler and run
 * until a shutdown signal. Cron-expression parsing belongs to the scheduler
 * library and is a parameter here: `parses(schedule)` says whether
 * `AddFunc` accepts the expression.
 */
module Lifecycle {
  import opened Wrappers
  import opened Environment
  import opened Jobs
  import opened Loader
  import opened Dispatch

  /** A scheduler entry: the job's name and schedule and the closure it runs (None for a nil job). */
  datatype Entry = Entry(name: string, schedule: string, job: Option<Action>)

  /**
   * The entry added for one job. Its closure acts on this job's own copy of
   * the fields: an http job requests its own URL with its own secret as
   * bearer token, a shell job runs its own command in its own container,
   * and any other type gets a nil job.
   */
  function EntryOf(c: Config): (e: Entry)
    ensures e.name == c.name && e.schedule == c.schedule
    ensures c.jobType == "http" ==>
      e.job.Some? && EffectOf(e.job.value) == HttpGet(c.targetUrl, "Bearer " + c.secretToken)
    ensures c.jobType == "shell" ==>
      && e.job.Some? && EffectOf(e.job.value).Exec?
      && ArgvTarget(EffectOf(e.job.value).argv) == Some((c.shellTargetContainer, c.shellCommand))
    ensures c.jobType != "http" && c.jobType != "shell" ==> e.job.None?
  {
    Entry(c.name, c.schedule, ActionOf(c))
  }

  /** The entries the scheduler holds after the registration loop, in job order: the jobs whose schedule it accepts. */
  function Registered(configs: seq<Config>, parses: string -> bool): (es: seq<Entry>)
    ensures |es| <= |configs|
    ensures forall e :: e in es ==> parses(e.schedule)
  {
    if configs == [] then []
    else
      var init := Registered(configs[..|configs| - 1], parses);
      var c := configs[|configs| - 1];
      if parses(c.schedule) then init + [EntryOf(c)] else init
  }

  /** The names reported as "Failed to add CRON job", in job order. */
  function Rejected(configs: seq<Config>, parses: string -> bool): (names: seq<string>)
    ensures |names| <= |configs|
  {
    if configs == [] then []
    else
      var init := Rejected(configs[..|configs| - 1], parses);
      var c := configs[|configs| - 1];
      if parses(c.schedule) then init else init + [c.name]
  }

  /**
   * The registration loop: for each job, build its closure from a copy of
   * the config and add it under the job's schedule; a schedule the
   * scheduler refuses is reported and the job is not added.
   */
  method RegisterJobs(configs: seq<Config>, parses: string -> bool) returns (entries: seq<Entry>, rejected: seq<string>)
    ensures entries == Registered(configs, parses)
    ensures rejected == Rejected(configs, parses)
  {
    entries, rejected := [], [];
    for k := 0 to |configs|
      invariant entries == Registered(configs[..k], parses)
      invariant rejected == Rejected(configs[..k], parses)
    {
      var jobConf := configs[k];
      assert configs[..k + 1][..k] == configs[..k];
      var job := ActionOf(jobConf);
      if parses(jobConf.schedule) {
        entries := entries + [Entry(jobConf.name, jobConf.schedule, job)];
      } else {
        rejected := rejected + [jobConf.name];
      }
    }
    assert configs[..|configs|] == configs;
  }

  /**
   * The positions of the jobs whose schedule the scheduler accepts (when
   * `accepted` holds) or refuses (otherwise), in increasing order.
   */
  function Selected(configs: seq<Config>, parses: string -> bool, accepted: bool): seq<nat> {
    if configs == [] then []
    else
      var init := Selected(configs[..|configs| - 1], parses, accepted);
      init + (if parses(configs[|configs| - 1].schedule) == accepted then [|configs| - 1] else [])
  }

  /** The selected positions are exactly the jobs with that answer, each once, in increasing order. */
  lemma {:induction false} SelectedPositions(configs: seq<Config>, parses: string -> bool, accepted: bool)
    ensures var ks := Selected(configs, parses, accepted);
      && (forall m :: 0 <= m < |ks| ==> ks[m] < |configs| && parses(configs[ks[m]].schedule) == accepted)
      && (forall m, n :: 0 <= m < n < |ks| ==> ks[m] < ks[n])
      && (forall k :: 0 <= k < |configs| && parses(configs[k].schedule) == accepted ==> k in ks)
  {
    if configs != [] {
      SelectedPositions(configs[..|configs| - 1], parses, accepted);
    }
  }

  /** One entry per accepted job and one report per refused job. */
  lemma {:induction false} SelectedCounts(configs: seq<Config>, parses: string -> bool)
    ensures |Registered(configs, parses)| == |Selected(configs, parses, true)|
    ensures |Rejected(configs, parses)| == |Selected(configs, parses, false)|
  {
    if configs != [] {
      SelectedCounts(configs[..|configs| - 1], parses);
    }
  }

  /** Every job is either registered or reported, never both and never neither. */
  lemma RegisteredOrRejected(configs: seq<Config>, parses: string -> bool, k: nat)
    requires k < |configs|
    ensures k in Selected(configs, parses, true) <==> k !in Selected(configs, parses, false)
    ensures |Registered(configs, parses)| + |Rejected(configs, parses)| == |configs|
  {
    SelectedPositions(configs, parses, true);
    SelectedPositions(configs, parses, false);
    SelectedPartition(configs, parses);
    SelectedCounts(configs, parses);
  }

  /** The accepted and the refused positions together number the jobs. */
  lemma {:induction false} SelectedPartition(configs: seq<Config>, parses: string -> bool)
    ensures |Selected(configs, parses, true)| + |Selected(configs, parses, false)| == |configs|
  {
    if configs != [] {
      SelectedPartition(configs[..|configs| - 1], parses);
    }
  }

  /** Entry m is the entry of the m-th accepted job, so a refused job does not shift the later ones onto wrong configs. */
  lemma {:induction false} RegisteredEntry(configs: seq<Config>, parses: string -> bool, m: nat)
    requires m < |Selected(configs, parses, true)|
    ensures m < |Registered(configs, parses)| && Selected(configs, parses, true)[m] < |configs|
    ensures Registered(configs, parses)[m] == EntryOf(configs[Selected(configs, parses, true)[m]])
  {
    var init := configs[..|configs| - 1];
    var c := configs[|configs| - 1];
    var ks := Selected(init, parses, true);
    SelectedCounts(init, parses);
    SelectedPositions(configs, parses, true);
    assert Selected(configs, parses, true) == ks + (if parses(c.schedule) then [|init|] else []);
    assert Registered(configs, parses) == Registered(init, parses) + (if parses(c.schedule) then [EntryOf(c)] else []);
    if m < |ks| {
      RegisteredEntry(init, parses, m);
      SelectedPositions(init, parses, true);
      assert configs[ks[m]] == init[ks[m]];
    }
  }

  /** Report m names the m-th refused job. */
  lemma {:induction false} RejectedName(configs: seq<Config>, parses: string -> bool, m: nat)
    requires m < |Selected(configs, parses, false)|
    ensures m < |Rejected(configs, parses)| && Selected(configs, parses, false)[m] < |configs|
    ensures Rejected(configs, parses)[m] == configs[Selected(configs, parses, false)[m]].name
  {
    var init := configs[..|configs| - 1];
    var c := configs[|configs| - 1];
    var ks := Selected(init, parses, false);
    SelectedCounts(init, parses);
    SelectedPositions(configs, parses, false);
    assert Selected(configs, parses, false) == ks + (if !parses(c.schedule) then [|init|] else []);
    assert Rejected(configs, parses) == Rejected(init, parses) + (if !parses(c.schedule) then [c.name] else []);
    if m < |ks| {
      RejectedName(init, parses, m);
      SelectedPositions(init, parses, false);
      assert configs[ks[m]] == init[ks[m]];
    }
  }

  /** Among jobs the loader kept, every registered entry has a closure (none is nil). */
  lemma {:induction false} RegisteredHaveJobs(configs: seq<Config>, parses: string -> bool)
    requires forall c :: c in configs ==> WellFormed(c)
    ensures forall e :: e in Registered(configs, parses) ==> e.job.Some?
  {
    if configs != [] {
      var init := configs[..|configs| - 1];
      var c := configs[|configs| - 1];
      assert forall d :: d in init ==> d in configs;
      RegisteredHaveJobs(init, parses);
      WellFormedAction(c);
    }
  }

  /**
   * When every schedule is accepted, entry m is the entry of job m: each
   * closure acts on its own job's fields, not on those of the last job of
   * the loop.
   */
  lemma {:induction false} RegisteredAt(configs: seq<Config>, parses: string -> bool, m: nat)
    requires forall c :: c in configs ==> parses(c.schedule)
    requires m < |configs|
    ensures |Registered(configs, parses)| == |configs|
    ensures Registered(configs, parses)[m] == EntryOf(configs[m])
  {
    var init := configs[..|configs| - 1];
    assert forall d :: d in init ==> d in configs;
    if m < |init| {
      RegisteredAt(init, parses, m);
    } else if init != [] {
      RegisteredAt(init, parses, 0);
    }
  }

  /**
   * When the scheduler refuses every schedule, nothing is registered: the
   * early exit only looks at the loaded jobs, so the runner still starts,
   * with no entries.
   */
  lemma {:induction false} RegisteredNone(configs: seq<Config>, parses: string -> bool)
    requires forall c :: c in configs ==> !parses(c.schedule)
    ensures Registered(configs, parses) == []
    ensures Rejected(configs, parses) == Names(configs)
  {
    if configs != [] {
      var init := configs[..|configs| - 1];
      assert forall d :: d in init ==> d in configs;
      RegisteredNone(init, parses);
    }
  }

  /** The names of the jobs, in order. */
  function Names(configs: seq<Config>): (names: seq<string>)
    ensures |names| == |configs| && forall m :: 0 <= m < |configs| ==> names[m] == configs[m].name
  {
    if configs == [] then [] else Names(configs[..|configs| - 1]) + [configs[|configs| - 1].name]
  }

  /** The observable phases of one execution of the runner. */
  datatype Phase =
    | Loading
    | Scheduling
    | Running(jobCount: nat)
    | ShuttingDown
    | Stopped

  /**
   * The main sequence. With no valid job the runner exits straight after
   * loading; otherwise it registers the jobs, starts with as many entries as
   * were accepted, and on the shutdown signal stops the scheduler and waits
   * for it. Both ways out end with exit code 0.
   */
  method Run(env: Env, parses: string -> bool) returns (trace: seq<Phase>, entries: seq<Entry>, exitCode: int)
    ensures exitCode == 0
    ensures entries == Registered(LoadedConfigs(env), parses)
    ensures forall e :: e in entries ==> e.job.Some?
    ensures trace == [Loading] <==> LoadedConfigs(env) == []
    ensures LoadedConfigs(env) != [] ==>
      trace == [Loading, Scheduling, Running(|Registered(LoadedConfigs(env), parses)|), ShuttingDown, Stopped]
  {
    trace := [Loading];
    var configs, log := LoadConfigs(env);
    if |configs| == 0 {
      entries := [];
      exitCode := 0;
      return;
    }
    trace := trace + [Scheduling];
    LoadedWellFormed(env);
    var rejected;
    entries, rejected := RegisterJobs(configs, parses);
    RegisteredHaveJobs(configs, parses);
    trace := trace + [Running(|entries|)];
    // The scheduler runs until SIGINT or SIGTERM arrives.
    trace := trace + [ShuttingDown];
    trace := trace + [Stopped];
    exitCode := 0;
  }
}
