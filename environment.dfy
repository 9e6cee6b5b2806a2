/**
 * The process environment that `loadConfigs` reads. A variable is addressed
 * by its field and index; KeyName renders the name the source builds with
 * `fmt.Sprintf("<FIELD>_%d", i)`, and KeyNameInjective shows that distinct
 * (field, index) pairs are distinct variables, so nothing is lost by keying
 * the environment this way.
 */
module Environment {
  import opened Wrappers
  import opened Decimal

  /** The seven per-job variables; the `_i` suffix is added by KeyName. */
  datatype Field =
    | CronSchedule
    | JobType
    | JobName
    | CronTargetUrl
    | CronSecret
    | ShellCommand
    | ShellTargetContainer

  function Prefix(f: Field): string {
    match f
    case CronSchedule => "CRON_SCHEDULE_"
    case JobType => "JOB_TYPE_"
    case JobName => "JOB_NAME_"
    case CronTargetUrl => "CRON_TARGET_URL_"
    case CronSecret => "CRON_SECRET_"
    case ShellCommand => "SHELL_COMMAND_"
    case ShellTargetContainer => "SHELL_TARGET_CONTAINER_"
  }

  /** Variable `f` of job `i`. */
  datatype Key = Key(field: Field, index: nat)

  /** The variable's name, e.g. `CRON_SCHEDULE_3`. */
  function KeyName(f: Field, i: nat): string {
    Prefix(f) + NatToString(i)
  }

  /** The variables that are set. */
  type Env = map<Key, string>

  /** `os.Getenv`: an unset variable reads as the empty string, exactly like one set to "". */
  function Getenv(env: Env, f: Field, i: nat): (v: string)
    ensures Key(f, i) !in env ==> v == ""
    ensures Key(f, i) in env ==> v == env[Key(f, i)]
    ensures v != "" ==> Key(f, i) in env && env[Key(f, i)] == v
  {
    if Key(f, i) in env then env[Key(f, i)] else ""
  }

  /**
   * Recognises a variable name of field `f`, its index written as `%d`
   * writes it (at least one digit, no leading zero), and recovers the index.
   */
  function KeyIndex(f: Field, key: string): Option<nat> {
    var p := Prefix(f);
    if |p| <= |key| && key[..|p|] == p && IsCanonical(key[|p|..]) then
      Some(ParseNat(key[|p|..]))
    else
      None
  }

  /** KeyIndex inverts KeyName. */
  lemma KeyIndexOfKeyName(f: Field, i: nat)
    ensures KeyIndex(f, KeyName(f, i)) == Some(i)
  {
    var p, d := Prefix(f), NatToString(i);
    assert (p + d)[..|p|] == p;
    assert (p + d)[|p|..] == d;
    ParseNatToString(i);
  }

  /** Every name KeyIndex recognises is the name of the index it recovers. */
  lemma KeyNameOfKeyIndex(f: Field, key: string)
    requires KeyIndex(f, key).Some?
    ensures KeyName(f, KeyIndex(f, key).value) == key
  {
    var p := Prefix(f);
    NatToStringParseNat(key[|p|..]);
    assert key == p + key[|p|..];
  }

  /** Every prefix ends in an underscore, which is not a digit. */
  lemma PrefixShape(f: Field)
    ensures |Prefix(f)| > 0 && Prefix(f)[|Prefix(f)| - 1] == '_'
  {
  }

  /** A digit string cannot cover the underscore that ends a longer prefix. */
  lemma UnderscoreNotCovered(p: string, d: string, q: string, e: string)
    requires AllDigits(d) && |p| < |q| && q[|q| - 1] == '_'
    ensures p + d != q + e
  {
    if |q| <= |p + d| {
      assert (q + e)[|q| - 1] == '_';
      assert (p + d)[|q| - 1] == d[|q| - 1 - |p|];
    }
  }

  /**
   * Distinct (field, index) pairs name distinct variables, so reading the
   * environment by (field, index) loses nothing.
   */
  lemma KeyNameInjective(f1: Field, i1: nat, f2: Field, i2: nat)
    requires KeyName(f1, i1) == KeyName(f2, i2)
    ensures f1 == f2 && i1 == i2
  {
    var s := KeyName(f1, i1);
    var p1, p2 := Prefix(f1), Prefix(f2);
    var d1, d2 := NatToString(i1), NatToString(i2);
    assert s == p1 + d1 == p2 + d2;
    PrefixShape(f1);
    PrefixShape(f2);
    if |p1| < |p2| {
      UnderscoreNotCovered(p1, d1, p2, d2);
    } else if |p2| < |p1| {
      UnderscoreNotCovered(p2, d2, p1, d1);
    }
    assert p1 == s[..|p1|] == p2;
    assert d1 == s[|p1|..] == d2;
    NatToStringInjective(i1, i2);
  }
}
