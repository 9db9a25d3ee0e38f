/** The rules the simulated directory ("forgerock") branch applies to each
    user (iam_audit.py). Issues here are bare messages, not records. */
module DirectoryRules {
  import opened Optional
  import Text
  import Clock
  import CheckOrder

  /** A directory user. `mfaEnabled` and `role` are `None` when the key is
      missing or holds `None`, which the rules treat alike; `lastLoginDay` is
      the already-parsed `LastLogin` date as a day count since 1970-01-01. */
  datatype DirectoryUser = DirectoryUser(userName: string, mfaEnabled: Option<bool>, lastLoginDay: int,
                                         role: Option<string>)

  /** A login more than this many days ago makes the account stale. */
  const StaleLoginDays: int := 30

  const NoMfaMessage: string := "No MFA enabled"

  const AdminMessage: string := "User has admin privileges"

  /** The stale-login message is this prefix, the elapsed-day count and this suffix. */
  const StaleLoginPrefix: string := "Stale account (last login "

  const StaleLoginSuffix: string := " days ago)"

  function StaleLoginMessage(days: int): string
  {
    StaleLoginPrefix + Text.IntToDecimal(days) + StaleLoginSuffix
  }

  /** Whole days between midnight of the last-login date and `now`. */
  function DaysSinceLastLogin(user: DirectoryUser, now: int): int
  {
    Clock.ElapsedDays(now, Clock.DayStart(user.lastLoginDay))
  }

  /** Which check emits a message: 0 for MFA, 1 for staleness, 2 for the admin role. */
  function CheckOf(message: string): int
  {
    if message == NoMfaMessage then 0
    else if message == AdminMessage then 2
    else 1
  }

  /** Every message the rules can produce. */
  ghost predicate IsDirectoryIssue(message: string)
  {
    message == NoMfaMessage || message == AdminMessage || exists days :: message == StaleLoginMessage(days)
  }

  lemma StaleLoginMessageIsDistinct(days: int)
    ensures StaleLoginMessage(days) != NoMfaMessage && StaleLoginMessage(days) != AdminMessage
    ensures CheckOf(StaleLoginMessage(days)) == 1
  {  }

  lemma StaleLoginMessageInjective(m: int, n: int)
    ensures StaleLoginMessage(m) == StaleLoginMessage(n) ==> m == n
  {
    if StaleLoginMessage(m) == StaleLoginMessage(n) {
      var sm := StaleLoginMessage(m);
      var sn := StaleLoginMessage(n);
      assert Text.IntToDecimal(m) == sm[|StaleLoginPrefix|..|sm| - |StaleLoginSuffix|];
      assert Text.IntToDecimal(n) == sn[|StaleLoginPrefix|..|sn| - |StaleLoginSuffix|];
      Text.IntToDecimalInjective(m, n);
    }
  }

  /** The per-user rule block of the directory branch: MFA flag missing or
      false, then a login more than `StaleLoginDays` days ago, then the role
      exactly "admin". */
  function EvaluateDirectoryUser(user: DirectoryUser, now: int): (issues: seq<string>)
    ensures |issues| <= 3
    ensures forall k :: 0 <= k < |issues| ==> IsDirectoryIssue(issues[k])
    ensures CheckOrder.InCheckOrder(issues, CheckOf)
    ensures NoMfaMessage in issues <==> user.mfaEnabled == None || user.mfaEnabled == Some(false)
    ensures forall days :: StaleLoginMessage(days) in issues <==>
      days == DaysSinceLastLogin(user, now) && days > StaleLoginDays
    ensures AdminMessage in issues <==> user.role == Some("admin")
  {
    var days := DaysSinceLastLogin(user, now);
    var a := if !user.mfaEnabled.GetOr(false) then [NoMfaMessage] else [];
    var b := if days > StaleLoginDays then [StaleLoginMessage(days)] else [];
    var c := if user.role == Some("admin") then [AdminMessage] else [];
    StaleLoginMessageIsDistinct(days);
    forall d ensures StaleLoginMessage(d) !in a && StaleLoginMessage(d) !in c
                     && (StaleLoginMessage(d) in b ==> d == days) {
      StaleLoginMessageIsDistinct(d);
      StaleLoginMessageInjective(d, days);
    }
    DirectoryChecksInOrder(a, b, c);
    a + b + c
  }

  lemma DirectoryChecksInOrder(a: seq<string>, b: seq<string>, c: seq<string>)
    requires a == [] || a == [NoMfaMessage]
    requires |b| <= 1 && forall k :: 0 <= k < |b| ==> CheckOf(b[k]) == 1
    requires c == [] || c == [AdminMessage]
    ensures CheckOrder.InCheckOrder(a + b + c, CheckOf)
  {  }

  /** The staleness boundary is strict: 30 whole days after the last-login
      date the account is not stale, 31 days after it is. */
  lemma StaleLoginBoundary(user: DirectoryUser, slack: int)
    requires 0 <= slack < Clock.MicrosPerDay
    ensures var at30 := Clock.DayStart(user.lastLoginDay + StaleLoginDays) + slack;
      forall days :: StaleLoginMessage(days) !in EvaluateDirectoryUser(user, at30)
    ensures StaleLoginMessage(StaleLoginDays + 1) in
      EvaluateDirectoryUser(user, Clock.DayStart(user.lastLoginDay + StaleLoginDays + 1))
  {  }
}
