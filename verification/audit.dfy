/** The per-provider loops of the audit driver (`main` in iam_audit.py):
    evaluate every user in input order and keep only the users with at
    least one issue. */
module Audit {
  import opened Optional
  import AwsRules
  import DirectoryRules

  /** One entry of the aggregate handed to the report: a user name and that
      user's issues. */
  datatype UserIssues<I> = UserIssues(user: string, issues: seq<I>)

  /** The threshold used when the configuration has no `stale_threshold_days`. */
  const DefaultStaleThresholdDays: int := 180

  /** Evaluates each user in turn and appends an entry exactly for the users
      whose issue list is non-empty. `picked` lists, in order, the input
      positions of the users that were kept. */
  method CollectFlagged<U, I>(users: seq<U>, nameOf: U -> string, evaluate: U -> seq<I>)
    returns (flagged: seq<UserIssues<I>>, picked: seq<nat>)
    ensures |flagged| == |picked| <= |users|
    ensures forall k :: 0 <= k < |picked| ==> picked[k] < |users|
    ensures forall k, l :: 0 <= k < l < |picked| ==> picked[k] < picked[l]
    ensures forall k :: 0 <= k < |picked| ==>
      flagged[k] == UserIssues(nameOf(users[picked[k]]), evaluate(users[picked[k]]))
    ensures forall i :: 0 <= i < |users| ==> (i in picked <==> |evaluate(users[i])| > 0)
    ensures forall k :: 0 <= k < |flagged| ==> |flagged[k].issues| > 0
  {
    flagged, picked := [], [];
    var i := 0;
    while i < |users|
      invariant 0 <= i <= |users|
      invariant |flagged| == |picked| <= i
      invariant forall k :: 0 <= k < |picked| ==> picked[k] < i
      invariant forall k, l :: 0 <= k < l < |picked| ==> picked[k] < picked[l]
      invariant forall k :: 0 <= k < |picked| ==>
        flagged[k] == UserIssues(nameOf(users[picked[k]]), evaluate(users[picked[k]]))
      invariant forall j :: 0 <= j < i ==> (j in picked <==> |evaluate(users[j])| > 0)
      invariant forall k :: 0 <= k < |flagged| ==> |flagged[k].issues| > 0
    {
      var issues := evaluate(users[i]);
      if |issues| > 0 {
        flagged := flagged + [UserIssues(nameOf(users[i]), issues)];
        picked := picked + [i];
      }
      i := i + 1;
    }
  }

  /** The AWS branch: every IAM user checked against the configured (or
      default) staleness threshold, users without issues left out.
      `configuredThreshold` is `None` when the configuration has no
      `stale_threshold_days` key. The clock
      is read afresh for each user, so `nows[i]` is the instant at which
      user `i` is checked. */
  method AuditAws(accounts: seq<AwsRules.AwsAccount>, nows: seq<int>, configuredThreshold: Option<int>)
    returns (report: seq<UserIssues<AwsRules.Issue>>, picked: seq<nat>)
    requires |nows| == |accounts|
    ensures |report| == |picked| <= |accounts|
    ensures forall k, l :: 0 <= k < l < |picked| ==> picked[k] < picked[l]
    ensures forall k :: 0 <= k < |picked| ==> picked[k] < |accounts|
    ensures forall k :: 0 <= k < |picked| ==> (
      var a := accounts[picked[k]];
      report[k] == UserIssues(a.user.userName,
        AwsRules.CheckUserCompliance(a.user, a.mfa, a.policies, configuredThreshold.GetOr(DefaultStaleThresholdDays),
                                     nows[picked[k]])))
    ensures forall i :: 0 <= i < |accounts| ==> (i in picked <==> (
      var a := accounts[i];
      |AwsRules.CheckUserCompliance(a.user, a.mfa, a.policies, configuredThreshold.GetOr(DefaultStaleThresholdDays),
                                    nows[i])| > 0))
    ensures forall k :: 0 <= k < |report| ==> |report[k].issues| > 0
  {
    var threshold := configuredThreshold.GetOr(DefaultStaleThresholdDays);
    var timed := seq(|accounts|, i requires 0 <= i < |accounts| => (accounts[i], nows[i]));
    report, picked := CollectFlagged(timed, (t: (AwsRules.AwsAccount, int)) => t.0.user.userName,
      (t: (AwsRules.AwsAccount, int)) => AwsRules.CheckUserCompliance(t.0.user, t.0.mfa, t.0.policies, threshold, t.1));
  }

  /** The simulated directory branch: every user evaluated, users without
      issues left out. The clock is read afresh for each user, so `nows[i]`
      is the instant at which user `i` is checked. */
  method AuditDirectory(users: seq<DirectoryRules.DirectoryUser>, nows: seq<int>)
    returns (report: seq<UserIssues<string>>, picked: seq<nat>)
    requires |nows| == |users|
    ensures |report| == |picked| <= |users|
    ensures forall k, l :: 0 <= k < l < |picked| ==> picked[k] < picked[l]
    ensures forall k :: 0 <= k < |picked| ==> picked[k] < |users|
    ensures forall k :: 0 <= k < |picked| ==>
      report[k] == UserIssues(users[picked[k]].userName,
                              DirectoryRules.EvaluateDirectoryUser(users[picked[k]], nows[picked[k]]))
    ensures forall i :: 0 <= i < |users| ==>
      (i in picked <==> |DirectoryRules.EvaluateDirectoryUser(users[i], nows[i])| > 0)
    ensures forall k :: 0 <= k < |report| ==> |report[k].issues| > 0
  {
    var timed := seq(|users|, i requires 0 <= i < |users| => (users[i], nows[i]));
    report, picked := CollectFlagged(timed, (t: (DirectoryRules.DirectoryUser, int)) => t.0.userName,
      (t: (DirectoryRules.DirectoryUser, int)) => DirectoryRules.EvaluateDirectoryUser(t.0, t.1));
  }

  /** The two users the directory branch audits. 2025-02-01 is day 20120
      and 2025-02-20 is day 20139 counted from 1970-01-01. */
  const SimulatedDirectoryUsers: seq<DirectoryRules.DirectoryUser> := [
    DirectoryRules.DirectoryUser("jane_forgerock", Some(false), 20120, Some("admin")),
    DirectoryRules.DirectoryUser("john_forgerock", Some(true), 20139, Some("user"))
  ]

  /** On the built-in users, jane is always flagged (no MFA, admin role) and
      john is flagged exactly when his last login is more than 30 days old,
      with the stale message as his only issue. */
  lemma SimulatedDirectoryOutcome(now: int)
    ensures var jane := DirectoryRules.EvaluateDirectoryUser(SimulatedDirectoryUsers[0], now);
      DirectoryRules.NoMfaMessage in jane && DirectoryRules.AdminMessage in jane
    ensures var john := SimulatedDirectoryUsers[1];
      var days := DirectoryRules.DaysSinceLastLogin(john, now);
      DirectoryRules.EvaluateDirectoryUser(john, now) ==
        (if days > DirectoryRules.StaleLoginDays then [DirectoryRules.StaleLoginMessage(days)] else [])
  {  }
}
