# easypanel-cron: the job loader and the job decisions, in Dafny

easypanel-cron is a container that runs cron jobs. Each job is configured by
indexed environment variables: `CRON_SCHEDULE_<i>`, `JOB_TYPE_<i>`,
`JOB_NAME_<i>`, `CRON_TARGET_URL_<i>`, `CRON_SECRET_<i>`, `SHELL_COMMAND_<i>`
and `SHELL_TARGET_CONTAINER_<i>`.

A job is one of two kinds:
- an `http` job sends a `GET` with a bearer token;
- a `shell` job runs `sh -c <command>`, either locally or inside another container through `docker exec`.

This project models the whole program in `main.go`, without its I/O:

- **`decimal.dfy` (`Decimal`).** The decimal rendering of the job index that `fmt.Sprintf("%d")` performs, and its inverse.
- **`environment.dfy` (`Environment`).** The environment, as a finite map from (field, index) keys to values. A missing key reads as `""`, as with `os.Getenv`. `KeyName` renders a key as the variable name the program looks up. `KeyNameInjective` proves that distinct keys have distinct names, so keying the map by (field, index) loses nothing.
- **`jobs.dfy` (`Jobs`).** The `Config` record and the verdict of one index. A verdict either loads the job or skips it with a reason. The verdict for one index is a declarative function, `Check`, with defaults, required fields and the order of the error checks.
- **`loader.dfy` (`Loader`).** `loadConfigs`, modelled two ways:
  - as the imperative loop it is (`LoadConfigs`, with its per-index body `BuildConfig`);
  - as its specification: `Scan` is the log of verdicts from index 1 up to the first empty schedule, and `LoadedOf` is the jobs kept from that log.

  The lemmas cover the prefix cut-off, order, one job per valid index and the well-formedness of every job kept. The unbounded `for i := 1; ; i++` terminates because the map is finite: the set of schedule keys at or beyond `i` shrinks with each index the loop passes.
- **`dispatch.dfy` (`Dispatch`).** The decisions inside the job closures:
  - the switch on the job type;
  - the `Authorization` header, related to the bearer credentials of section 2.1 of RFC 6750;
  - the HTTP outcome, with status codes of 400 or more failing, related to the classes of section 15 of RFC 9110;
  - the argument vector of the shell job;
  - the shell outcome;
  - the effect a job fires.

  What the network or the subprocess returns is an input.
- **`lifecycle.dfy` (`Lifecycle`).** The body of `main`:
  - the early exit when no job loads;
  - the registration loop that adds one scheduler entry per job;
  - the phases of one run.

  Whether the cron library accepts a schedule is the parameter `parses: string -> bool`.

Some consequences of the code that the model keeps:

- **Exit code.** `main` has no non-zero exit path: it calls `os.Exit(0)` when no job loads (`main.go:118-121`) and otherwise returns normally after shutdown. `Lifecycle.Run` ensures the exit code is 0 on both paths.
- **Which HTTP statuses fail.** Only status codes of 400 or more count as failure (`main.go:157`), so any 1xx or 3xx reply that reaches the job counts as success. `Dispatch.HttpOutcome` follows this.
- **All schedules rejected.** The early exit looks only at the number of loaded jobs. If the cron library rejects every schedule, the runner still starts with no entries and waits for a signal (`Lifecycle.RegisteredNone`, `Lifecycle.Run`).
- **Job type.** The job type stays a string in `Config` and is switched on when the closure is built (`main.go:138`). `Config.jobType` is a string, and `Dispatch.ActionOf` is the switch.

## Model

| member | source | states |
|---|---|---|
| Decimal.NatToString | main.go:41 | the `%d` rendering of an index is a non-empty string of decimal digits with no leading zero (only 0 starts with '0') |
| Decimal.ParseNatToString | main.go:41 | reading the rendered digits back gives the index: the rendering loses nothing |
| Decimal.NatToStringInjective | main.go:41 | different indices render differently |
| Decimal.NatToStringParseNat | main.go:41 | every digit string without a leading zero is the rendering of the number it denotes |
| Environment.Getenv | main.go:42 | an unset variable reads as `""` and a set variable reads as its stored value |
| Environment.KeyIndexOfKeyName | main.go:41 | the index can be read back from a variable name such as `CRON_SCHEDULE_12` |
| Environment.KeyNameOfKeyIndex | main.go:41 | every name read as an index (prefix, then digits without a leading zero) is exactly the name of that index |
| Environment.KeyNameInjective | main.go:41 | two (field, index) pairs with the same variable name are the same pair, so no two lookups of the loader read the same variable |
| Jobs.DefaultNamesDistinct | main.go:56 | default names `job_#i` of different indices differ |
| Jobs.CheckWellFormed | main.go:65-92 | a job that passes validation has a schedule, a name, a type of "http" or "shell", that type's required fields and empty fields of the other type |
| Jobs.LoadedFields | main.go:49-82 | a loaded job holds exactly its own index's values: the schedule, the name (or `job_#i` when unset), the type (or "http" when unset), the URL and secret of an http job, and the command and container of a shell job |
| Jobs.SkipReasons | main.go:65-85 | each skip reason in both directions: a missing secret is reported whenever the secret is missing, even with the URL missing too; a missing URL only when the secret is present; a missing command for shell; any other type is reported as unknown with that type; a skipped job is logged under its (defaulted) name |
| Jobs.CheckLocal | main.go:49-85 | the verdict of an index depends on that index's seven variables only |
| Loader.Stop | main.go:40-47 | the scan stops at the first index at or after the start whose schedule is empty; every index before it has a schedule |
| Loader.BuildConfig | main.go:49-85 | the loop body, with `validationError` reassigned in source order: no error exactly when the index's verdict loads this config; an error is the verdict's reason, logged with the job's name |
| Loader.LoadConfigs | main.go:36-97 | the loop logs the verdicts of indices 1, 2, … up to the first empty schedule, and returns the loaded jobs of that log in order |
| Loader.ScanLength | main.go:40-47 | the log has one verdict for each index from the start up to the first empty schedule |
| Loader.ScanAt | main.go:40-94 | entry j of the log is the verdict of index start + j |
| Loader.ScanShape | main.go:40-94 | the whole log is the verdicts of the indices before the first empty schedule, in index order |
| Loader.LaterIndicesIgnored | main.go:40-47 | two environments that agree on every variable of the indices before the first empty schedule, and in which that schedule is empty, load the same jobs, whatever later indices hold |
| Loader.LoadedWellFormed | main.go:36-97 | every job loadConfigs returns is well formed (schedule, name, known type, required fields present) |
| Loader.LoadedIndicesOrdered | main.go:87-92 | there is one source index per returned job; these indices strictly increase and lie before the first empty schedule |
| Loader.JobOfIndex | main.go:87-92 | returned job m comes from its own index: it is the loaded verdict of the m-th index that loads |
| Loader.IndexContributes | main.go:87-92 | an index before the cut-off contributes a job exactly when its verdict loads; a skipped index contributes nothing and does not stop the scan |
| Dispatch.ActionOf | main.go:137-201 | a closure is built exactly for the types "http" and "shell"; for "http" it carries the job's own URL and secret, for "shell" its own command and container |
| Dispatch.WellFormedAction | main.go:137-201 | every loaded job gets a closure, and the fields that closure uses are non-empty |
| Dispatch.Authorization | main.go:148 | the header value is `Bearer ` followed by the secret, and the secret can be read back from it |
| Dispatch.BearerTokenRenders | main.go:148 | every header value of the `Bearer <token>` form is the rendering of the token read from it |
| Dispatch.AuthorizationConforms | main.go:148 | the header is bearer credentials in the sense of section 2.1 of RFC 6750 (`"Bearer" 1*SP b64token`) exactly when the secret is a b64token after any leading spaces, which join the one space written; the secret is not checked |
| Dispatch.B64TokenSecretConforms | main.go:148 | a secret that is a b64token always gives conforming credentials |
| Dispatch.LeadingSpaceSecretConforms | main.go:148 | the secret `" abc"` is no b64token, yet its header `Bearer  abc` conforms |
| Dispatch.HttpOutcome | main.go:143-161 | success exactly when the request was built, a response came back and its status code is below 400; otherwise the failure is the build error, the transport error, or the error status with the response's status text; a success carries the status text |
| Dispatch.ErrorStatusIsErrorClass | main.go:157-161 | for codes 100-599 a response fails exactly when it is in the 4xx or 5xx class of section 15 of RFC 9110 |
| Dispatch.ShellArgv | main.go:173-182 | the command ends in `sh -c <command>`; it is only that when the container is empty, and `docker exec <container>` is in front otherwise |
| Dispatch.ShellArgvRoundTrip | main.go:173-182 | container and command can be read back from the argument vector: the command is passed as one argument |
| Dispatch.ShellOutcome | main.go:188-199 | a shell run fails exactly when the run returns an error, so output on stderr alone is no failure |
| Dispatch.EffectOf | main.go:140-182 | an http job requests its own URL with its own secret as bearer token; a shell job executes its own command in its own container (or locally) |
| Lifecycle.EntryOf | main.go:133-140 | the entry of a job has its name and schedule; an http job's closure requests its own URL with `Bearer ` and its own secret; a shell job's closure runs its own command in its own container (or locally); any other type is a nil job |
| Lifecycle.Registered | main.go:204-207 | the scheduler holds no more entries than there are jobs, and only under schedules it accepts |
| Lifecycle.Rejected | main.go:204-207 | there are no more "Failed to add CRON job" reports than jobs |
| Lifecycle.Names | main.go:206 | the name reported for job m is the name of job m |
| Lifecycle.RegisterJobs | main.go:132-208 | the registration loop adds exactly the entries of the accepted schedules, in job order, and reports exactly the rejected jobs |
| Lifecycle.SelectedPositions | main.go:204-207 | the accepted (or refused) positions are exactly the jobs whose schedule the scheduler accepts (or refuses), each once and in increasing order |
| Lifecycle.SelectedCounts | main.go:204-207 | there is one entry per accepted job and one report per refused job |
| Lifecycle.SelectedPartition | main.go:204-207 | the accepted and the refused positions together number the jobs |
| Lifecycle.RegisteredOrRejected | main.go:204-207 | each job is registered exactly when it is not reported, and entries plus reports number the jobs |
| Lifecycle.RegisteredEntry | main.go:204-207 | entry m is the entry of the m-th accepted job, so a refused job does not move a later job onto another's config |
| Lifecycle.RejectedName | main.go:204-207 | report m names the m-th refused job |
| Lifecycle.RegisteredHaveJobs | main.go:137-204 | every entry registered for a loaded job has a closure; no nil job is scheduled |
| Lifecycle.RegisteredAt | main.go:133-135 | when every schedule is accepted, entry m is the entry of job m: each closure uses its own copy of the config |
| Lifecycle.RegisteredNone | main.go:117-121 | when every schedule is rejected, the scheduler holds no entry and every job is reported; the early exit does not catch this |
| Lifecycle.Run | main.go:111-223 | with no loaded job the run ends right after loading; otherwise it schedules, runs with as many entries as were accepted, shuts down and stops; each entry has a closure; the exit code is 0 |

## Left out

- Cron-expression parsing, next-fire times, and `Start`/`Stop` of the scheduler: these belong to the `robfig/cron/v3` library, which is not part of this model. `AddFunc` is the `parses` parameter.
- Network I/O: the HTTP request, its 60-second client timeout and the URL parsing in `http.NewRequest`. Their results are the inputs of `Dispatch.HttpOutcome`. A timeout is one more transport error.
- Redirect following by the Go HTTP client: what reaches the job is taken as the reply.
- Subprocess execution, the five-minute context timeout and the capture of stdout and stderr. Their results are the inputs of `Dispatch.ShellOutcome`.
- Signal handling, the wait for running jobs during shutdown, and panic recovery through `cron.Recover`: these are concurrency and runtime faults. `Lifecycle.Run` records the phases only.
- Lifecycle.Run: does not model that the running phase lasts until SIGINT or SIGTERM arrives, or that stopping waits for jobs in flight, because neither has an observable value beyond the order of phases.
- Logging: the JSON `slog` output, the `SlogCronLogger` adapter (`main.go:100-109`), and `strings.TrimSpace` on logged command output. `Jobs.Message` gives the reason texts, but log records themselves are not modelled.
- Dispatch.ShellOutcome: does not say which of stdout and stderr get logged, since logging is left out.
- Concurrency between jobs firing at the same time: every run is modelled on its own.
