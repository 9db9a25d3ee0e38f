/** The compliance rules applied to one AWS IAM user (`check_user_compliance`
    in utils.py). The IAM client's answers for the user arrive as plain
    values; "now" is a parameter. */
module AwsRules {
  import opened Optional
  import Text
  import Clock
  import CheckOrder

  datatype Severity = Critical | Warning

  /** One finding about a user, as the dictionaries the source appends. */
  datatype Issue = Issue(message: string, severity: Severity, recommendation: string)

  datatype MfaDevice = MfaDevice(serialNumber: string)

  /** An entry of `AttachedPolicies`; `policyName` is `None` when the
      `PolicyName` key is missing. */
  datatype AttachedPolicy = AttachedPolicy(policyName: Option<string>)

  /** A user as `list_users` reports it. `passwordLastUsed` is the instant of
      the last password use (microseconds since the epoch, UTC), `None` when
      the key is missing or holds no value. */
  datatype IamUser = IamUser(userName: string, passwordLastUsed: Option<int>)

  /** The answer of `list_mfa_devices`; `mfaDevices` is `None` when the
      `MFADevices` key is missing or holds `None`, which the rule treats
      alike: no devices. */
  datatype MfaDevicesResponse = MfaDevicesResponse(mfaDevices: Option<seq<MfaDevice>>)

  /** The answer of `list_attached_user_policies`; `attachedPolicies` is
      `None` when the `AttachedPolicies` key is missing. */
  datatype AttachedPoliciesResponse = AttachedPoliciesResponse(attachedPolicies: Option<seq<AttachedPolicy>>)

  /** A user together with what the IAM client answers about that user. */
  datatype AwsAccount = AwsAccount(user: IamUser, mfa: MfaDevicesResponse, policies: AttachedPoliciesResponse)

  const NoMfaIssue: Issue :=
    Issue("No MFA enabled", Critical, "Enable MFA for all users immediately.")

  const NoUsageIssue: Issue :=
    Issue("No record of password usage (possible inactive account)", Warning,
          "Review the user account for activity.")

  const AdminIssue: Issue :=
    Issue("User has AdministratorAccess policy", Critical, "Review the necessity of admin privileges.")

  /** The text whose presence in a policy name marks the policy as granting admin rights. */
  const AdminPolicyMarker: string := "AdministratorAccess"

  /** The stale message is this prefix, the elapsed-day count and this suffix. */
  const StalePrefix: string := "Stale account (last used "

  const StaleSuffix: string := " days ago)"

  function StaleMessage(days: int): string
  {
    StalePrefix + Text.IntToDecimal(days) + StaleSuffix
  }

  function StaleIssue(days: int): Issue
  {
    Issue(StaleMessage(days), Warning, "Review account activity and disable if necessary.")
  }

  /** Every issue the rules can produce. */
  ghost predicate IsAwsIssue(issue: Issue)
  {
    issue == NoMfaIssue || issue == NoUsageIssue || issue == AdminIssue ||
    exists days :: issue == StaleIssue(days)
  }

  /** Which check emits an issue: 0 for MFA, 1 for staleness or no usage, 2 for admin. */
  function CheckOf(issue: Issue): int
  {
    if issue.message == NoMfaIssue.message then 0
    else if issue.message == AdminIssue.message then 2
    else 1
  }

  function MfaDevicesOf(response: MfaDevicesResponse): seq<MfaDevice>
  {
    response.mfaDevices.GetOr([])
  }

  function PoliciesOf(response: AttachedPoliciesResponse): seq<AttachedPolicy>
  {
    response.attachedPolicies.GetOr([])
  }

  predicate GrantsAdmin(policy: AttachedPolicy)
  {
    Text.Contains(AdminPolicyMarker, policy.policyName.GetOr(""))
  }

  /** The stale message reads back as the day count it was built from. */
  function StaleDaysIn(message: string): Option<int>
  {
    var prefix, suffix := StalePrefix, StaleSuffix;
    if |message| >= |prefix| + |suffix| && message[..|prefix|] == prefix
       && message[|message| - |suffix|..] == suffix
    then Text.ParseDecimal(message[|prefix|..|message| - |suffix|])
    else None
  }

  /** The stale message embeds the elapsed-day count: it can be read back,
      so distinct counts give distinct messages. */
  lemma StaleMessageEmbedsDays(days: int)
    ensures StaleDaysIn(StaleMessage(days)) == Some(days)
  {
    var prefix, suffix := StalePrefix, StaleSuffix;
    var digits := Text.IntToDecimal(days);
    var m := StaleMessage(days);
    assert m == prefix + digits + suffix;
    assert m[..|prefix|] == prefix;
    assert m[|m| - |suffix|..] == suffix;
    assert m[|prefix|..|m| - |suffix|] == digits;
    Text.DecimalRoundTrip(days);
  }

  /** A stale message is none of the fixed messages. */
  lemma StaleMessageIsDistinct(days: int)
    ensures StaleIssue(days) != NoMfaIssue && StaleIssue(days) != NoUsageIssue
    ensures StaleIssue(days) != AdminIssue
    ensures CheckOf(StaleIssue(days)) == 1
  {
    var m := StaleMessage(days);
    assert StalePrefix[0] == 'S';
    assert m[0] == StalePrefix[0];
    assert NoMfaIssue.message[0] == 'N';
    NoUsageMessageStartsWithN();
    assert AdminIssue.message[0] == 'U';
  }

  lemma NoUsageMessageStartsWithN()
    ensures |NoUsageIssue.message| > 0 && NoUsageIssue.message[0] == 'N'
  {
    var noUsage := "No record of password usage" + " (possible inactive account)";
    assert NoUsageIssue.message == noUsage;
    assert noUsage[0] == 'N';
  }

  // ---------------------------------------------------------------- the three checks

  function MfaCheck(devices: seq<MfaDevice>): seq<Issue>
  {
    if |devices| == 0 then [NoMfaIssue] else []
  }

  function ActivityCheck(passwordLastUsed: Option<int>, thresholdDays: int, now: int): seq<Issue>
  {
    match passwordLastUsed
    case Some(t) =>
      var days := Clock.ElapsedDays(now, t);
      if days > thresholdDays then [StaleIssue(days)] else []
    case None => [NoUsageIssue]
  }

  /** The scan over the attached policies that stops at the first policy
      granting admin rights: one issue if any policy does, none otherwise. */
  function AdminCheck(policies: seq<AttachedPolicy>): (issues: seq<Issue>)
    ensures |issues| <= 1
    ensures forall k :: 0 <= k < |issues| ==> issues[k] == AdminIssue
    ensures |issues| == 1 <==> exists i :: 0 <= i < |policies| && GrantsAdmin(policies[i])
  {
    if |policies| == 0 then []
    else if GrantsAdmin(policies[0]) then [AdminIssue]
    else
      var rest := AdminCheck(policies[1..]);
      assert forall i :: 1 <= i < |policies| ==> policies[i] == policies[1..][i - 1];
      rest
  }

  /** `check_user_compliance`: the MFA check, then the staleness or
      no-usage check, then the admin-policy check. */
  function CheckUserCompliance(user: IamUser, mfa: MfaDevicesResponse, policies: AttachedPoliciesResponse,
                               thresholdDays: int, now: int): (issues: seq<Issue>)
    ensures |issues| <= 3
    ensures forall k :: 0 <= k < |issues| ==> IsAwsIssue(issues[k])
    ensures CheckOrder.InCheckOrder(issues, CheckOf)
    ensures NoMfaIssue in issues <==> |MfaDevicesOf(mfa)| == 0
    ensures |MfaDevicesOf(mfa)| == 0 ==> |issues| > 0 && issues[0] == NoMfaIssue
    ensures NoUsageIssue in issues <==> user.passwordLastUsed.None?
    ensures forall days :: StaleIssue(days) in issues <==>
      user.passwordLastUsed.Some? && days == Clock.ElapsedDays(now, user.passwordLastUsed.value) && days > thresholdDays
    ensures AdminIssue in issues <==>
      exists i :: 0 <= i < |PoliciesOf(policies)| && GrantsAdmin(PoliciesOf(policies)[i])
    ensures forall k :: 0 <= k < |issues| ==> (issues[k].severity == Critical <==> CheckOf(issues[k]) != 1)
  {
    var a := MfaCheck(MfaDevicesOf(mfa));
    var b := ActivityCheck(user.passwordLastUsed, thresholdDays, now);
    var c := AdminCheck(PoliciesOf(policies));
    ActivityCheckShape(user.passwordLastUsed, thresholdDays, now);
    ChecksInOrder(a, b, c);
    ChecksKinds(a, b, c);
    ChecksMembership(a, b, c);
    a + b + c
  }

  /** The three check results, concatenated, hold only rule issues, and
      exactly the MFA and admin issues are Critical. */
  lemma ChecksKinds(a: seq<Issue>, b: seq<Issue>, c: seq<Issue>)
    requires a == [] || a == [NoMfaIssue]
    requires forall k :: 0 <= k < |b| ==> CheckOf(b[k]) == 1 && IsAwsIssue(b[k]) && b[k].severity == Warning
    requires c == [] || c == [AdminIssue]
    ensures forall k :: 0 <= k < |a + b + c| ==> IsAwsIssue((a + b + c)[k])
    ensures forall k :: 0 <= k < |a + b + c| ==>
      ((a + b + c)[k].severity == Critical <==> CheckOf((a + b + c)[k]) != 1)
  {  }

  /** The MFA and admin results hold no stale or no-usage issue, and the
      activity result holds only staleness-check issues, so each issue is
      found in the concatenation exactly when its own check emitted it. */
  lemma ChecksMembership(a: seq<Issue>, b: seq<Issue>, c: seq<Issue>)
    requires a == [] || a == [NoMfaIssue]
    requires forall k :: 0 <= k < |b| ==> CheckOf(b[k]) == 1
    requires c == [] || c == [AdminIssue]
    ensures NoMfaIssue in a + b + c <==> NoMfaIssue in a
    ensures NoUsageIssue in a + b + c <==> NoUsageIssue in b
    ensures AdminIssue in a + b + c <==> AdminIssue in c
    ensures forall days :: StaleIssue(days) in a + b + c <==> StaleIssue(days) in b
  {  }

  /** Positions of the issues along the concatenation of the three checks. */
  lemma ChecksInOrder(a: seq<Issue>, b: seq<Issue>, c: seq<Issue>)
    requires a == [] || a == [NoMfaIssue]
    requires forall k :: 0 <= k < |b| ==> CheckOf(b[k]) == 1
    requires |b| <= 1
    requires c == [] || c == [AdminIssue]
    ensures CheckOrder.InCheckOrder(a + b + c, CheckOf)
  {  }

  /** What the staleness / no-usage check contributes: exactly one issue
      when no last use is recorded, at most one stale issue otherwise. */
  lemma ActivityCheckShape(passwordLastUsed: Option<int>, thresholdDays: int, now: int)
    ensures var b := ActivityCheck(passwordLastUsed, thresholdDays, now);
      && |b| <= 1
      && (passwordLastUsed.None? ==> b == [NoUsageIssue])
      && (forall k :: 0 <= k < |b| ==> CheckOf(b[k]) == 1 && IsAwsIssue(b[k]) && b[k].severity == Warning)
      && (NoUsageIssue in b <==> passwordLastUsed.None?)
      && (forall days :: StaleIssue(days) in b <==>
            passwordLastUsed.Some? && days == Clock.ElapsedDays(now, passwordLastUsed.value) && days > thresholdDays)
  {
    var b := ActivityCheck(passwordLastUsed, thresholdDays, now);
    assert CheckOf(NoUsageIssue) == 1;
    if passwordLastUsed.Some? {
      var days := Clock.ElapsedDays(now, passwordLastUsed.value);
      StaleMessageIsDistinct(days);
      forall d | StaleIssue(d) in b ensures d == days {
        StaleMessageEmbedsDays(d);
        StaleMessageEmbedsDays(days);
      }
    }
  }

  // ---------------------------------------------------------------- properties

  /** Each of the three checks contributes at most one issue, however many
      policies match; with no recorded password use the staleness / no-usage
      check contributes exactly one. */
  lemma EachCheckAtMostOnce(user: IamUser, mfa: MfaDevicesResponse, policies: AttachedPoliciesResponse,
                            thresholdDays: int, now: int)
    ensures var issues := CheckUserCompliance(user, mfa, policies, thresholdDays, now);
      && (forall p :: CheckOrder.CountAt(issues, CheckOf, p) <= 1)
      && (user.passwordLastUsed.None? ==> CheckOrder.CountAt(issues, CheckOf, 1) == 1)
  {
    var issues := CheckUserCompliance(user, mfa, policies, thresholdDays, now);
    forall p ensures CheckOrder.CountAt(issues, CheckOf, p) <= 1 {
      CheckOrder.AtMostOncePerCheck(issues, CheckOf, p);
    }
    if user.passwordLastUsed.None? {
      var k :| 0 <= k < |issues| && issues[k] == NoUsageIssue;
      assert CheckOf(NoUsageIssue) == 1;
      CheckOrder.CountAtPositive(issues, CheckOf, k);
    }
  }

  /** The staleness boundary is strict: a password last used exactly
      `thresholdDays` whole days ago (plus less than a day) is not stale,
      one used `thresholdDays + 1` days ago is. */
  lemma StaleBoundary(user: IamUser, mfa: MfaDevicesResponse, policies: AttachedPoliciesResponse,
                      thresholdDays: int, lastUsed: int, slack: int)
    requires user.passwordLastUsed == Some(lastUsed)
    requires 0 <= slack < Clock.MicrosPerDay
    ensures var atThreshold := lastUsed + thresholdDays * Clock.MicrosPerDay + slack;
      forall days :: StaleIssue(days) !in CheckUserCompliance(user, mfa, policies, thresholdDays, atThreshold)
    ensures var pastThreshold := lastUsed + (thresholdDays + 1) * Clock.MicrosPerDay;
      StaleIssue(thresholdDays + 1) in CheckUserCompliance(user, mfa, policies, thresholdDays, pastThreshold)
  {  }

  /** A user with no MFA device, no recorded password use and no policies
      gets exactly the MFA issue followed by the no-usage issue. */
  lemma NoMfaNeverUsedUser(user: IamUser, now: int)
    requires user.passwordLastUsed.None?
    ensures CheckUserCompliance(user, MfaDevicesResponse(Some([])), AttachedPoliciesResponse(Some([])), 180, now)
      == [NoMfaIssue, NoUsageIssue]
  {
  }
}
