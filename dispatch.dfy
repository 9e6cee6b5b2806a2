/**
 * The decisions a job makes when it fires (the `http` and `shell` closures
 * that main registers): which request or command it issues, and whether the
 * run counts as a failure. The network call and the subprocess are not
 * modelled; what they return is an input.
 */
module Dispatch {
  import opened Wrappers
  import opened Jobs

  /** What a job does when it fires: the job type resolved into a tagged value with that type's fields. */
  datatype Action =
    | HttpAction(targetUrl: string, secretToken: string)
    | ShellAction(command: string, targetContainer: string)

  /** The switch on JobType that picks a closure; any other type leaves the job nil (None). */
  function ActionOf(c: Config): (a: Option<Action>)
    ensures a.Some? <==> c.jobType == "http" || c.jobType == "shell"
    ensures a.Some? ==> (a.value.HttpAction? <==> c.jobType == "http")
    ensures c.jobType == "http" ==> a == Some(HttpAction(c.targetUrl, c.secretToken))
    ensures c.jobType == "shell" ==> a == Some(ShellAction(c.shellCommand, c.shellTargetContainer))
  {
    if c.jobType == "http" then Some(HttpAction(c.targetUrl, c.secretToken))
    else if c.jobType == "shell" then Some(ShellAction(c.shellCommand, c.shellTargetContainer))
    else None
  }

  /** Every job the loader keeps gets a closure, and the fields that closure uses are present. */
  lemma WellFormedAction(c: Config)
    requires WellFormed(c)
    ensures ActionOf(c).Some?
    ensures match ActionOf(c).value
      case HttpAction(url, token) => url != "" && token != ""
      case ShellAction(command, _) => command != ""
  {
  }

  // ---------------------------------------------------------------------
  // HTTP jobs

  /** The value of the Authorization header the HTTP job sends. */
  function Authorization(secretToken: string): (h: string)
    ensures BearerToken(h) == Some(secretToken)
  {
    assert ("Bearer " + secretToken)[..7] == "Bearer ";
    assert ("Bearer " + secretToken)[7..] == secretToken;
    "Bearer " + secretToken
  }

  /** Reads the token back from a header value of the form `Bearer <token>`. */
  function BearerToken(h: string): Option<string> {
    if |h| >= 7 && h[..7] == "Bearer " then Some(h[7..]) else None
  }

  /** A header value the reader accepts is exactly the header of the token it reads. */
  lemma BearerTokenRenders(h: string)
    requires BearerToken(h).Some?
    ensures Authorization(BearerToken(h).value) == h
  {
    assert h == h[..7] + h[7..];
  }

  /** A character of the `b64token` rule of section 2.1 of RFC 6750 (padding '=' excluded). */
  predicate IsB64TokenChar(c: char) {
    || 'A' <= c <= 'Z' || 'a' <= c <= 'z' || '0' <= c <= '9'
    || c == '-' || c == '.' || c == '_' || c == '~' || c == '+' || c == '/'
  }

  /** `b64token = 1*( ALPHA / DIGIT / "-" / "." / "_" / "~" / "+" / "/" ) *"="` (section 2.1 of RFC 6750). */
  predicate IsB64Token(s: string) {
    && |s| > 0
    && IsB64TokenChar(s[0])
    && (forall k :: 0 <= k < |s| ==> IsB64TokenChar(s[k]) || s[k] == '=')
    && (forall j, k :: 0 <= j < k < |s| && s[j] == '=' ==> s[k] == '=')
  }

  predicate Spaces(s: string) {
    forall k :: 0 <= k < |s| ==> s[k] == ' '
  }

  /** `credentials = "Bearer" 1*SP b64token` (section 2.1 of RFC 6750). */
  predicate IsBearerCredentials(h: string) {
    && |h| > 6 && h[..6] == "Bearer"
    && exists n :: 7 <= n <= |h| && Spaces(h[6..n]) && IsB64Token(h[n..])
  }

  /** A b64token, possibly preceded by spaces. */
  predicate IsSpacedB64Token(s: string) {
    exists n :: 0 <= n <= |s| && Spaces(s[..n]) && IsB64Token(s[n..])
  }

  /**
   * The header conforms to section 2.1 of RFC 6750 exactly when the secret
   * is a b64token after any leading spaces (which join the one space the
   * job writes); the loader only demands a non-empty secret, so any other
   * secret is sent as is.
   */
  lemma AuthorizationConforms(secretToken: string)
    ensures IsBearerCredentials(Authorization(secretToken)) <==> IsSpacedB64Token(secretToken)
  {
    if IsBearerCredentials(Authorization(secretToken)) {
      SpacedOfCredentials(secretToken);
    }
    if IsSpacedB64Token(secretToken) {
      var m :| 0 <= m <= |secretToken| && Spaces(secretToken[..m]) && IsB64Token(secretToken[m..]);
      CredentialsOfSpaced(secretToken, m);
    }
  }

  /** Spaces at the head of the secret join the separator; the rest is the token. */
  lemma CredentialsOfSpaced(s: string, m: nat)
    requires m <= |s| && Spaces(s[..m]) && IsB64Token(s[m..])
    ensures IsBearerCredentials(Authorization(s))
  {
    var h := Authorization(s);
    var n := m + 7;
    assert h[..6] == "Bearer";
    assert forall k :: 1 <= k < n - 6 ==> h[6..n][k] == s[..m][k - 1];
    assert h[6..n][0] == ' ';
    assert h[n..] == s[m..];
  }

  /** Credentials of the header: the spaces after the single one written come from the secret. */
  lemma SpacedOfCredentials(s: string)
    requires IsBearerCredentials(Authorization(s))
    ensures IsSpacedB64Token(s)
  {
    var h := Authorization(s);
    var n :| 7 <= n <= |h| && Spaces(h[6..n]) && IsB64Token(h[n..]);
    var m := n - 7;
    assert forall k :: 0 <= k < m ==> s[..m][k] == h[6..n][k + 1];
    assert s[m..] == h[n..];
  }

  /** In particular a b64token secret gives conforming credentials. */
  lemma B64TokenSecretConforms(secretToken: string)
    requires IsB64Token(secretToken)
    ensures IsBearerCredentials(Authorization(secretToken))
  {
    assert secretToken[..0] == [] && secretToken[0..] == secretToken;
    AuthorizationConforms(secretToken);
  }

  /** A secret with a leading space is no b64token, yet its header still conforms: the space joins the separator. */
  lemma LeadingSpaceSecretConforms()
    ensures !IsB64Token(" abc") && IsBearerCredentials(Authorization(" abc"))
  {
    var s := " abc";
    assert s[..1] == " " && s[1..] == "abc";
    assert Spaces(s[..1]) && IsB64Token(s[1..]);
    AuthorizationConforms(s);
  }

  /** A status code in the client-error (4xx) or server-error (5xx) class of section 15 of RFC 9110. */
  predicate IsErrorClass(statusCode: int) {
    statusCode / 100 == 4 || statusCode / 100 == 5
  }

  /** What the HTTP client hands back: a transport error, or a response with its code and status text. */
  datatype HttpReply =
    | TransportError(err: string)
    | Response(statusCode: int, status: string)

  /** Why a run failed; each is logged at error level with this detail. */
  datatype FailureReason =
    | RequestNotCreated(err: string)
    | RequestNotExecuted(err: string)
    | ErrorStatus(status: string)
    | CommandFailed(err: string)

  /** The outcome of one run, observable only in the log. */
  datatype Outcome =
    | Success(detail: string)
    | Failure(reason: FailureReason)

  /**
   * The HTTP job's outcome: the request could not be built (an unparsable
   * URL), the request failed in transport, or a response came back, which
   * fails with a status code of 400 or more and succeeds otherwise.
   */
  function HttpOutcome(requestError: Option<string>, reply: HttpReply): (o: Outcome)
    ensures o.Success? <==> requestError.None? && reply.Response? && reply.statusCode < 400
    ensures requestError.Some? ==> o == Failure(RequestNotCreated(requestError.value))
    ensures requestError.None? && reply.TransportError? ==> o == Failure(RequestNotExecuted(reply.err))
    ensures requestError.None? && reply.Response? && reply.statusCode >= 400 ==> o == Failure(ErrorStatus(reply.status))
    ensures o.Success? ==> o.detail == reply.status
  {
    if requestError.Some? then Failure(RequestNotCreated(requestError.value))
    else match reply
      case TransportError(err) => Failure(RequestNotExecuted(err))
      case Response(code, status) =>
        if code >= 400 then Failure(ErrorStatus(status)) else Success(status)
  }

  /** For the status codes section 15 of RFC 9110 defines (100-599), a response fails exactly in the 4xx and 5xx classes. */
  lemma ErrorStatusIsErrorClass(statusCode: int, status: string)
    requires 100 <= statusCode <= 599
    ensures HttpOutcome(None, Response(statusCode, status)).Failure? <==> IsErrorClass(statusCode)
  {
  }

  // ---------------------------------------------------------------------
  // Shell jobs

  /**
   * The argument vector of the shell job: `sh -c <command>` locally when no
   * target container is set, `docker exec <container> sh -c <command>`
   * otherwise. The command is passed verbatim as the last argument.
   */
  function ShellArgv(command: string, targetContainer: string): (argv: seq<string>)
    ensures |argv| >= 3
    ensures argv[|argv| - 3] == "sh" && argv[|argv| - 2] == "-c" && argv[|argv| - 1] == command
    ensures |argv| == 3 <==> targetContainer == ""
    ensures targetContainer != "" ==> |argv| == 6 && argv[0] == "docker" && argv[1] == "exec" && argv[2] == targetContainer
  {
    if targetContainer == "" then ["sh", "-c", command]
    else ["docker", "exec", targetContainer, "sh", "-c", command]
  }

  /** Reads the container ("" for local) and the command back from an argument vector. */
  function ArgvTarget(argv: seq<string>): Option<(string, string)> {
    if |argv| == 3 && argv[0] == "sh" && argv[1] == "-c" then Some(("", argv[2]))
    else if |argv| == 6 && argv[0] == "docker" && argv[1] == "exec" && argv[3] == "sh" && argv[4] == "-c"
    then Some((argv[2], argv[5]))
    else None
  }

  /** The argument vector determines container and command: no quoting or splitting happens. */
  lemma ShellArgvRoundTrip(command: string, targetContainer: string)
    ensures ArgvTarget(ShellArgv(command, targetContainer)) == Some((targetContainer, command))
  {
  }

  /** What the subprocess run hands back: both captured streams and the error of `Run`. */
  datatype RunResult = RunResult(stdout: string, stderr: string, err: Option<string>)

  /**
   * The shell job's outcome: it fails exactly when the run returns an error
   * (non-zero exit, failure to start, timeout); output on stderr alone does
   * not make it fail.
   */
  function ShellOutcome(run: RunResult): (o: Outcome)
    ensures o.Failure? <==> run.err.Some?
    ensures o.Failure? ==> o.reason == CommandFailed(run.err.value)
  {
    if run.err.Some? then Failure(CommandFailed(run.err.value)) else Success("")
  }

  // ---------------------------------------------------------------------
  // Both kinds

  /** The side effect a firing attempts. */
  datatype Effect =
    | HttpGet(url: string, authorization: string)
    | Exec(argv: seq<string>)

  /** The effect of firing an action; it can be read back to the action, so each job uses its own fields. */
  function EffectOf(a: Action): (e: Effect)
    ensures a.HttpAction? ==> e.HttpGet? && e.url == a.targetUrl && BearerToken(e.authorization) == Some(a.secretToken)
    ensures a.ShellAction? ==> e.Exec? && ArgvTarget(e.argv) == Some((a.targetContainer, a.command))
  {
    match a
    case HttpAction(url, token) => HttpGet(url, Authorization(token))
    case ShellAction(command, container) =>
      ShellArgvRoundTrip(command, container);
      Exec(ShellArgv(command, container))
  }
}
