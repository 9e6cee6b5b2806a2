/**
 * `loadConfigs`: scan `CRON_SCHEDULE_1`, `CRON_SCHEDULE_2`, ... until the
 * first empty schedule, keep every valid index in order and skip (with a
 * logged reason) every invalid one.
 */
module Loader {
  import opened Wrappers
  import opened Environment
  import opened Jobs

  /** The schedule variable of index `i`. */
  function ScheduleAt(env: Env, i: nat): string {
    Getenv(env, CronSchedule, i)
  }

  /** Set schedule variables whose index is at least `i`: finite, and what the scan still has ahead of it. */
  ghost function Pending(env: Env, i: nat): set<Key> {
    set k | k in env && k.field == CronSchedule && k.index >= i
  }

  /** Each step past a set schedule leaves strictly fewer pending schedules, so the scan ends. */
  lemma PendingShrinks(env: Env, i: nat)
    requires ScheduleAt(env, i) != ""
    ensures Pending(env, i + 1) < Pending(env, i)
  {
    var k := Key(CronSchedule, i);
    assert k in Pending(env, i);
    assert k !in Pending(env, i + 1);
  }

  /** The first index from `i` on whose schedule is empty: where the scan stops. */
  function Stop(env: Env, i: nat): (n: nat)
    ensures i <= n
    ensures ScheduleAt(env, n) == ""
    ensures forall k :: i <= k < n ==> ScheduleAt(env, k) != ""
    decreases Pending(env, i)
  {
    if ScheduleAt(env, i) == "" then i
    else
      PendingShrinks(env, i);
      Stop(env, i + 1)
  }

  /** The verdicts the scan logs, one per index from `i` up to the first empty schedule. */
  function Scan(env: Env, i: nat): seq<Verdict>
    decreases Pending(env, i)
  {
    if ScheduleAt(env, i) == "" then []
    else
      PendingShrinks(env, i);
      [Check(env, i)] + Scan(env, i + 1)
  }

  /** One scan step past a set schedule. */
  lemma ScanStep(env: Env, i: nat)
    requires ScheduleAt(env, i) != ""
    ensures Scan(env, i) == [Check(env, i)] + Scan(env, i + 1)
  {
  }

  /** The loop invariant of LoadConfigs is kept by one step past a set schedule. */
  lemma ScanAdvance(env: Env, i: nat, log: seq<Verdict>)
    requires ScheduleAt(env, i) != ""
    requires log + Scan(env, i) == Scan(env, 1)
    ensures (log + [Check(env, i)]) + Scan(env, i + 1) == Scan(env, 1)
  {
    ScanStep(env, i);
  }

  /** The jobs kept by a sequence of verdicts, in order (the `append` in the source). */
  function LoadedOf(log: seq<Verdict>): seq<Config> {
    if log == [] then []
    else
      var last := log[|log| - 1];
      LoadedOf(log[..|log| - 1]) + (if last.Loaded? then [last.config] else [])
  }

  /** Appending one verdict appends its job, if any. */
  lemma LoadedOfSnoc(log: seq<Verdict>, v: Verdict)
    ensures LoadedOf(log + [v]) == LoadedOf(log) + (if v.Loaded? then [v.config] else [])
  {
    assert (log + [v])[..|log|] == log;
  }

  /** What `loadConfigs` returns. */
  function LoadedConfigs(env: Env): seq<Config> {
    LoadedOf(Scan(env, 1))
  }

  /**
   * The body of one loop iteration for an index whose schedule is set:
   * defaults, the job's fields, and the validation error that later checks
   * overwrite. It agrees with Check.
   */
  method BuildConfig(env: Env, i: nat, schedule: string) returns (config: Config, validationError: Option<SkipReason>)
    requires schedule == ScheduleAt(env, i) && schedule != ""
    ensures validationError.None? ==> Check(env, i) == Loaded(config)
    ensures validationError.Some? ==> Check(env, i) == Skipped(config.name, validationError.value)
  {
    var jobType := Getenv(env, JobType, i);
    if jobType == "" {
      jobType := "http";
    }

    var jobName := Getenv(env, JobName, i);
    if jobName == "" {
      jobName := DefaultName(i);
    }

    config := Config(jobName, schedule, jobType, "", "", "", "");
    validationError := None;

    if jobType == "http" {
      config := config.(targetUrl := Getenv(env, CronTargetUrl, i));
      config := config.(secretToken := Getenv(env, CronSecret, i));
      if config.targetUrl == "" {
        validationError := Some(TargetUrlRequired);
      }
      if config.secretToken == "" {
        validationError := Some(SecretRequired);
      }
    } else if jobType == "shell" {
      config := config.(shellCommand := Getenv(env, ShellCommand, i));
      if config.shellCommand == "" {
        validationError := Some(ShellCommandRequired);
      }
      config := config.(shellTargetContainer := Getenv(env, ShellTargetContainer, i));
    } else {
      validationError := Some(UnknownJobType(jobType));
    }
  }

  /**
   * The loader as the source writes it: an unbounded index loop that breaks
   * on the first empty schedule, applies the defaults, collects a validation
   * error that later checks overwrite, and either appends the job or skips
   * it. `log` is the sequence of per-index loaded/skipped reports.
   */
  method LoadConfigs(env: Env) returns (configs: seq<Config>, log: seq<Verdict>)
    ensures log == Scan(env, 1)
    ensures configs == LoadedOf(log)
  {
    configs, log := [], [];
    var i: nat := 1;
    while true
      invariant log + Scan(env, i) == Scan(env, 1)
      invariant configs == LoadedOf(log)
      decreases Pending(env, i)
    {
      var schedule := Getenv(env, CronSchedule, i);
      if schedule == "" {
        break;
      }

      var config, validationError := BuildConfig(env, i, schedule);
      ScanAdvance(env, i, log);
      if validationError.Some? {
        LoadedOfSnoc(log, Skipped(config.name, validationError.value));
        log := log + [Skipped(config.name, validationError.value)];
      } else {
        LoadedOfSnoc(log, Loaded(config));
        configs := configs + [config];
        log := log + [Loaded(config)];
      }
      PendingShrinks(env, i);
      i := i + 1;
    }
  }

  /** Splitting a log splits the jobs it keeps. */
  lemma {:induction false} LoadedOfConcat(a: seq<Verdict>, b: seq<Verdict>)
    ensures LoadedOf(a + b) == LoadedOf(a) + LoadedOf(b)
    decreases |b|
  {
    if b != [] {
      var b', x := b[..|b| - 1], b[|b| - 1];
      var kept := if x.Loaded? then [x.config] else [];
      assert a + b == (a + b') + [x];
      assert b' + [x] == b;
      calc {
        LoadedOf(a + b);
        { LoadedOfSnoc(a + b', x); }
        LoadedOf(a + b') + kept;
        { LoadedOfConcat(a, b'); }
        LoadedOf(a) + LoadedOf(b') + kept;
        { LoadedOfSnoc(b', x); }
        LoadedOf(a) + LoadedOf(b);
      }
    } else {
      assert a + b == a;
    }
  }

  /** A job is kept only from a Loaded verdict of the log. */
  lemma {:induction false} LoadedOfMembers(log: seq<Verdict>)
    ensures forall c :: c in LoadedOf(log) ==> Loaded(c) in log
    decreases |log|
  {
    if log != [] {
      LoadedOfMembers(log[..|log| - 1]);
      assert forall v :: v in log[..|log| - 1] ==> v in log;
    }
  }

  /** The positions of a log that keep a job, in increasing order. */
  function LoadedPositions(log: seq<Verdict>): (ps: seq<nat>)
    ensures forall m :: 0 <= m < |ps| ==> ps[m] < |log| && log[ps[m]].Loaded?
    ensures forall m, n :: 0 <= m < n < |ps| ==> ps[m] < ps[n]
    ensures forall j :: 0 <= j < |log| && log[j].Loaded? ==> j in ps
  {
    if log == [] then []
    else
      var rest := LoadedPositions(log[..|log| - 1]);
      rest + (if log[|log| - 1].Loaded? then [|log| - 1] else [])
  }

  /** The m-th job kept is the job of the m-th Loaded position, so jobs keep the log's order. */
  lemma {:induction false} LoadedOfPositions(log: seq<Verdict>)
    ensures |LoadedOf(log)| == |LoadedPositions(log)|
    ensures forall m :: 0 <= m < |LoadedOf(log)| ==> LoadedOf(log)[m] == log[LoadedPositions(log)[m]].config
    decreases |log|
  {
    if log != [] {
      LoadedOfPositions(log[..|log| - 1]);
    }
  }

  /** The log has one verdict per index from `i` up to (not including) the first empty schedule. */
  lemma {:induction false} ScanLength(env: Env, i: nat)
    ensures |Scan(env, i)| == Stop(env, i) - i
    decreases Pending(env, i)
  {
    if ScheduleAt(env, i) != "" {
      PendingShrinks(env, i);
      ScanLength(env, i + 1);
      ScanStep(env, i);
    }
  }

  /** The verdict at position `j` of the log is the Check of index `i + j`. */
  lemma {:induction false} ScanAt(env: Env, i: nat, j: nat)
    requires j < Stop(env, i) - i
    ensures j < |Scan(env, i)| && Scan(env, i)[j] == Check(env, i + j)
    decreases j
  {
    ScanLength(env, i);
    ScanStep(env, i);
    if j > 0 {
      ScanAt(env, i + 1, j - 1);
    }
  }

  /**
   * The log has exactly one verdict per index from `i` up to (not
   * including) the first empty schedule, in increasing index order, and the
   * verdict at each position is that index's Check.
   */
  lemma ScanShape(env: Env, i: nat)
    ensures |Scan(env, i)| == Stop(env, i) - i
    ensures forall j :: 0 <= j < |Scan(env, i)| ==> Scan(env, i)[j] == Check(env, i + j)
  {
    ScanLength(env, i);
    forall j | 0 <= j < |Scan(env, i)|
      ensures Scan(env, i)[j] == Check(env, i + j)
    {
      ScanAt(env, i, j);
    }
  }

  /**
   * Prefix cut-off: the scan reads nothing at or beyond the first empty
   * schedule other than that schedule itself. Two environments that agree
   * on every variable of the indices before it, and in which that schedule
   * is empty, log the same verdicts and load the same jobs, whatever later
   * indices hold.
   */
  lemma {:induction false} LaterIndicesIgnored(env1: Env, env2: Env, i: nat)
    requires forall f: Field, k: nat :: i <= k < Stop(env1, i) ==>
               Getenv(env1, f, k) == Getenv(env2, f, k)
    requires ScheduleAt(env2, Stop(env1, i)) == ""
    ensures Scan(env1, i) == Scan(env2, i)
    ensures LoadedOf(Scan(env1, i)) == LoadedOf(Scan(env2, i))
    decreases Pending(env1, i)
  {
    assert ScheduleAt(env1, i) == ScheduleAt(env2, i);
    if ScheduleAt(env1, i) != "" {
      PendingShrinks(env1, i);
      PendingShrinks(env2, i);
      CheckLocal(env1, env2, i);
      LaterIndicesIgnored(env1, env2, i + 1);
    }
  }

  /** Putting one verdict in front of a log puts its job, if any, in front of the jobs kept. */
  lemma LoadedOfCons(v: Verdict, rest: seq<Verdict>)
    ensures LoadedOf([v] + rest) == (if v.Loaded? then [v.config] else []) + LoadedOf(rest)
  {
    LoadedOfConcat([v], rest);
    LoadedOfSnoc([], v);
  }

  /** Every job the scan from `i` keeps is well formed. */
  lemma {:induction false} LoadedFromWellFormed(env: Env, i: nat)
    ensures forall c :: c in LoadedOf(Scan(env, i)) ==> WellFormed(c)
    decreases Pending(env, i)
  {
    if ScheduleAt(env, i) != "" {
      PendingShrinks(env, i);
      LoadedFromWellFormed(env, i + 1);
      ScanStep(env, i);
      LoadedOfCons(Check(env, i), Scan(env, i + 1));
      if Check(env, i).Loaded? {
        CheckWellFormed(env, i);
      }
    }
  }

  /** Every job the loader returns is well formed: schedule set, known type, its required fields present. */
  lemma LoadedWellFormed(env: Env)
    ensures forall c :: c in LoadedConfigs(env) ==> WellFormed(c)
  {
    LoadedFromWellFormed(env, 1);
  }

  /** Adds one to every position: positions in the log are indices minus one. */
  function Shift(ps: seq<nat>): (ks: seq<nat>)
    ensures |ks| == |ps| && forall m :: 0 <= m < |ps| ==> ks[m] == ps[m] + 1
  {
    if ps == [] then [] else [ps[0] + 1] + Shift(ps[1..])
  }

  /** The indices whose verdict keeps a job, in the order the scan visits them. */
  function LoadedIndices(env: Env): seq<nat> {
    Shift(LoadedPositions(Scan(env, 1)))
  }

  /**
   * The loader keeps one job per index of LoadedIndices, in that order, and
   * LoadedIndices is strictly increasing and lies below the first empty
   * schedule.
   */
  lemma LoadedIndicesOrdered(env: Env)
    ensures |LoadedIndices(env)| == |LoadedConfigs(env)|
    ensures forall m, n :: 0 <= m < n < |LoadedIndices(env)| ==> LoadedIndices(env)[m] < LoadedIndices(env)[n]
    ensures forall m :: 0 <= m < |LoadedIndices(env)| ==> 1 <= LoadedIndices(env)[m] < Stop(env, 1)
  {
    ScanLength(env, 1);
    LoadedOfPositions(Scan(env, 1));
  }

  /** The m-th job the loader returns is the job its m-th loaded index yields. */
  lemma JobOfIndex(env: Env, m: nat)
    requires m < |LoadedConfigs(env)|
    ensures m < |LoadedIndices(env)|
    ensures Check(env, LoadedIndices(env)[m]) == Loaded(LoadedConfigs(env)[m])
  {
    var log := Scan(env, 1);
    var ps := LoadedPositions(log);
    LoadedIndicesOrdered(env);
    LoadedOfPositions(log);
    ScanAt(env, 1, ps[m]);
  }

  /** A position is among the Loaded positions exactly when the verdict there is Loaded. */
  lemma PositionLoaded(log: seq<Verdict>, j: nat)
    requires j < |log|
    ensures j in LoadedPositions(log) <==> log[j].Loaded?
  {
    var ps := LoadedPositions(log);
    if j in ps {
      var m :| 0 <= m < |ps| && ps[m] == j;
    }
  }

  /** Shifting keeps membership, one up. */
  lemma ShiftMember(ps: seq<nat>, x: nat)
    ensures x + 1 in Shift(ps) <==> x in ps
  {
    var ks := Shift(ps);
    if x in ps {
      var m :| 0 <= m < |ps| && ps[m] == x;
      assert ks[m] == x + 1;
    }
    if x + 1 in ks {
      var m :| 0 <= m < |ks| && ks[m] == x + 1;
      assert ps[m] == x;
    }
  }

  /**
   * An index below the first empty schedule contributes a job exactly when
   * its verdict is Loaded: a valid index is never lost, an invalid one adds
   * nothing and does not end the scan.
   */
  lemma IndexContributes(env: Env, k: nat)
    requires 1 <= k < Stop(env, 1)
    ensures k in LoadedIndices(env) <==> Check(env, k).Loaded?
  {
    var log := Scan(env, 1);
    ScanAt(env, 1, k - 1);
    PositionLoaded(log, k - 1);
    ShiftMember(LoadedPositions(log), k - 1);
  }
}
