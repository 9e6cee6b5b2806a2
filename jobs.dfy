/**
 * One job's configuration (the Go `Config` record) and the decision
 * `loadConfigs` takes for a single index: defaults, the per-type required
 * fields, and the reason an invalid index is skipped with.
 */
module Jobs {
  import opened Decimal
  import opened Environment

  /** The Go `Config` record; every field is a plain string, as in the source. */
  datatype Config = Config(
    name: string,
    schedule: string,
    jobType: string,
    targetUrl: string,
    secretToken: string,
    shellCommand: string,
    shellTargetContainer: string)

  /** Why an index is skipped; each carries the error text the loader logs. */
  datatype SkipReason =
    | TargetUrlRequired
    | SecretRequired
    | ShellCommandRequired
    | UnknownJobType(jobType: string)

  function Message(r: SkipReason): string {
    match r
    case TargetUrlRequired => "CRON_TARGET_URL is required"
    case SecretRequired => "CRON_SECRET is required"
    case ShellCommandRequired => "SHELL_COMMAND is required"
    case UnknownJobType(t) => "unknown JOB_TYPE: " + t
  }

  /** What the loader logs for one index: the job it keeps, or the job name and the reason it skips. */
  datatype Verdict =
    | Loaded(config: Config)
    | Skipped(name: string, reason: SkipReason)

  /** The job name used when `JOB_NAME_i` is empty: `job_#i`. */
  function DefaultName(i: nat): string {
    "job_#" + NatToString(i)
  }

  /** Job type of index `i`, "http" when `JOB_TYPE_i` is empty. */
  function TypeAt(env: Env, i: nat): string {
    var t := Getenv(env, JobType, i);
    if t == "" then "http" else t
  }

  /** Job name of index `i`, `job_#i` when `JOB_NAME_i` is empty. */
  function NameAt(env: Env, i: nat): string {
    var n := Getenv(env, JobName, i);
    if n == "" then DefaultName(i) else n
  }

  /**
   * The verdict for index `i` (meaningful once `CRON_SCHEDULE_i` is set).
   * For "http" the secret check comes last in the source, so its reason
   * wins when both URL and secret are missing.
   */
  function Check(env: Env, i: nat): Verdict {
    var name := NameAt(env, i);
    var jobType := TypeAt(env, i);
    var base := Config(name, Getenv(env, CronSchedule, i), jobType, "", "", "", "");
    if jobType == "http" then
      var url := Getenv(env, CronTargetUrl, i);
      var secret := Getenv(env, CronSecret, i);
      if secret == "" then Skipped(name, SecretRequired)
      else if url == "" then Skipped(name, TargetUrlRequired)
      else Loaded(base.(targetUrl := url, secretToken := secret))
    else if jobType == "shell" then
      var command := Getenv(env, ShellCommand, i);
      if command == "" then Skipped(name, ShellCommandRequired)
      else Loaded(base.(shellCommand := command,
                        shellTargetContainer := Getenv(env, ShellTargetContainer, i)))
    else
      Skipped(name, UnknownJobType(jobType))
  }

  /**
   * What every loaded job satisfies: a schedule and a name, one of the two
   * known types, that type's required fields present and the other type's
   * fields empty. The shell target container may be empty.
   */
  predicate WellFormed(c: Config) {
    && c.schedule != ""
    && c.name != ""
    && (|| (&& c.jobType == "http"
            && c.targetUrl != "" && c.secretToken != ""
            && c.shellCommand == "" && c.shellTargetContainer == "")
        || (&& c.jobType == "shell"
            && c.shellCommand != ""
            && c.targetUrl == "" && c.secretToken == ""))
  }

  /** A loaded index yields a well-formed job. */
  lemma CheckWellFormed(env: Env, i: nat)
    requires Getenv(env, CronSchedule, i) != ""
    requires Check(env, i).Loaded?
    ensures WellFormed(Check(env, i).config)
  {
    assert DefaultName(i) != "";
  }

  /** A loaded index yields a well-formed job built from exactly its own variables, defaults applied. */
  lemma LoadedFields(env: Env, i: nat)
    requires Getenv(env, CronSchedule, i) != ""
    requires Check(env, i).Loaded?
    ensures WellFormed(Check(env, i).config)
    ensures var c := Check(env, i).config;
      && c.schedule == Getenv(env, CronSchedule, i)
      && (Getenv(env, JobName, i) == "" ==> c.name == DefaultName(i))
      && (Getenv(env, JobName, i) != "" ==> c.name == Getenv(env, JobName, i))
      && (Getenv(env, JobType, i) == "" ==> c.jobType == "http")
      && (Getenv(env, JobType, i) != "" ==> c.jobType == Getenv(env, JobType, i))
      && (c.jobType == "http" ==>
            c.targetUrl == Getenv(env, CronTargetUrl, i)
            && c.secretToken == Getenv(env, CronSecret, i))
      && (c.jobType == "shell" ==>
            c.shellCommand == Getenv(env, ShellCommand, i)
            && c.shellTargetContainer == Getenv(env, ShellTargetContainer, i))
  {
    assert DefaultName(i) != "";
  }

  /**
   * The reason reported for an index, in both directions: a missing secret
   * is reported whenever the secret is missing (even if the URL is missing
   * too), a missing URL only when the secret is present.
   */
  lemma SkipReasons(env: Env, i: nat)
    ensures Check(env, i) == Skipped(NameAt(env, i), SecretRequired)
            <==> TypeAt(env, i) == "http" && Getenv(env, CronSecret, i) == ""
    ensures Check(env, i) == Skipped(NameAt(env, i), TargetUrlRequired)
            <==> && TypeAt(env, i) == "http"
                 && Getenv(env, CronSecret, i) != ""
                 && Getenv(env, CronTargetUrl, i) == ""
    ensures Check(env, i) == Skipped(NameAt(env, i), ShellCommandRequired)
            <==> TypeAt(env, i) == "shell" && Getenv(env, ShellCommand, i) == ""
    ensures Check(env, i) == Skipped(NameAt(env, i), UnknownJobType(TypeAt(env, i)))
            <==> TypeAt(env, i) != "http" && TypeAt(env, i) != "shell"
    ensures Check(env, i).Skipped? ==> Check(env, i).name == NameAt(env, i)
  {
  }

  /** The verdict of an index depends on that index's variables alone. */
  lemma CheckLocal(env1: Env, env2: Env, i: nat)
    requires forall f: Field :: Getenv(env1, f, i) == Getenv(env2, f, i)
    ensures Check(env1, i) == Check(env2, i)
  {
    assert Getenv(env1, JobType, i) == Getenv(env2, JobType, i);
    assert Getenv(env1, JobName, i) == Getenv(env2, JobName, i);
    assert Getenv(env1, CronSchedule, i) == Getenv(env2, CronSchedule, i);
    assert Getenv(env1, CronTargetUrl, i) == Getenv(env2, CronTargetUrl, i);
    assert Getenv(env1, CronSecret, i) == Getenv(env2, CronSecret, i);
    assert Getenv(env1, ShellCommand, i) == Getenv(env2, ShellCommand, i);
    assert Getenv(env1, ShellTargetContainer, i) == Getenv(env2, ShellTargetContainer, i);
  }

  /** Default names of different indices differ. */
  lemma DefaultNamesDistinct(i: nat, j: nat)
    requires DefaultName(i) == DefaultName(j)
    ensures i == j
  {
    assert NatToString(i) == DefaultName(i)[5..] == DefaultName(j)[5..] == NatToString(j);
    NatToStringInjective(i, j);
  }
}
