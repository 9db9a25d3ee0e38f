# IAM access reviewer — compliance rules in Dafny

This project models the decision-making core of the IAM access reviewer,
which audits identity accounts against a fixed set of compliance rules:

- **AWS rule evaluator** (`check_user_compliance`): for one IAM user, given the
  user's MFA devices, the time the password was last used (if any), the attached
  policies and a staleness threshold, it produces an ordered list of issues.
  Each issue has a message, a severity (Critical or Warning) and a recommendation.
  The checks run in a fixed order: MFA, then staleness or no usage, then the
  AdministratorAccess policy.
- **Simulated directory ("forgerock") rule evaluator**: the same rules over a
  plain user record. It checks a falsy MFA flag, a last login more than 30 days
  ago and the role `"admin"`. Its issues are bare message strings.
- **Aggregation**: each provider loop in `main` keeps, in input order, only the
  users whose issue list is non-empty.

Modules:

- `Optional` (optional.dfy): `Option`. For `AttachedPolicies`, `PolicyName` and `stale_threshold_days`, `None` means only that the key is missing. For `MFADevices`, `PasswordLastUsed`, `MFAEnabled` and `Role`, it means the key is missing or holds `None`. The source treats those two cases the same way.
- `Text` (text.dfy): Python's substring test (`needle in hay`) and `str(int)`.
  Each has an independent partner: a position-based definition of "substring",
  and a decimal parser with a round-trip lemma.
- `Clock` (clock.dfy): instants are integer microseconds since the epoch, UTC.
  `ElapsedDays` is `timedelta.days`, that is, floor division by one day.
- `CheckOrder` (check_order.dfy): "issues appear in check order" and the fact
  that this makes every check contribute at most once.
- `AwsRules` (aws_rules.dfy): the AWS evaluator.
- `DirectoryRules` (directory_rules.dfy): the simulated directory evaluator.
- `Audit` (audit.dfy): the aggregation loop, the two provider branches and the
  built-in directory users.

Two facts about the directory branch: its issues are bare strings with no
severity or recommendation, and its staleness threshold is fixed at 30 days
(iam_audit.py:59-66).

## Model

| member | source | states |
|---|---|---|
| Text.Contains | utils.py:70 | the scan answers true exactly when the marker occurs at some position of the policy name (Python `in`) |
| Text.ContainsFrom | utils.py:70 | scanning from a position finds the needle iff it occurs at that position or later |
| Text.NatToDecimal | utils.py:49-50 | `str(n)` of a non-negative integer is a non-empty run of digits with no leading zero; 0 renders as "0" |
| Text.IntToDecimal | utils.py:49-50 | `str(n)` starts with a minus sign exactly for negative n; the rest is digits with no leading zero; 0 renders as "0" |
| Text.ParseNatOfNatToDecimal | utils.py:49-50 | reading back the digits of a non-negative integer gives that integer |
| Text.DecimalRoundTrip | utils.py:48-51 | the decimal rendering of any integer parses back to that integer |
| Text.IntToDecimalInjective | utils.py:48-51 | distinct day counts render differently |
| Clock.ElapsedDays | utils.py:42-45 | elapsed days is the floor of the difference in days: days·D ≤ now − then < days·D + D, negative for a future time |
| Clock.DayStart | iam_audit.py:61 | a parsed date is midnight of its day, and elapsed days from the epoch give back the day number |
| Clock.ElapsedDaysExact | iam_audit.py:62 | a difference inside the k-th whole-day window yields exactly k elapsed days |
| CheckOrder.AtMostOncePerCheck | utils.py:28-78 | issues listed in strict check order contain at most one issue per check |
| CheckOrder.CountAtPositive | utils.py:57-64 | a check that emitted an issue is counted at least once |
| CheckOrder.NoneAbove | utils.py:28-78 | if every issue comes from a later check, no issue is counted for an earlier one |
| AwsRules.StaleMessageEmbedsDays | utils.py:48-51 | the stale message "Stale account (last used N days ago)" reads back as exactly N |
| AwsRules.StaleMessageIsDistinct | utils.py:34-75 | a stale issue is none of the MFA, no-usage and admin issues, and belongs to the staleness check |
| AwsRules.AdminCheck | utils.py:66-76 | the policy scan stops at the first match: one AdministratorAccess issue iff some policy name (missing name read as "") contains "AdministratorAccess", none otherwise |
| AwsRules.ChecksKinds | utils.py:34-75 | the concatenated results hold only the four kinds of rule issue, and an issue is Critical exactly when it comes from the MFA or admin check |
| AwsRules.ChecksMembership | utils.py:33-76 | each kind of issue (MFA, no-usage, stale, admin) is in the full list exactly when its own check emitted it |
| AwsRules.ChecksInOrder | utils.py:28-78 | MFA issue, then at most one staleness issue, then the admin issue, are in check order |
| AwsRules.ActivityCheckShape | utils.py:40-64 | no recorded use: exactly the Warning no-usage issue; recorded use: no no-usage issue, and a Warning stale issue carrying the elapsed days iff they exceed the threshold |
| AwsRules.CheckUserCompliance | utils.py:27-78 | at most 3 issues, in order MFA, staleness/no-usage, admin. Critical "No MFA enabled" iff the device list is empty (missing key read as empty), and then it comes first. No-usage iff no recorded use. Stale issue with N iff a use is recorded, N is the elapsed days and N > threshold. Admin issue iff some policy name contains "AdministratorAccess". MFA and admin issues are Critical; the others are Warning |
| AwsRules.EachCheckAtMostOnce | utils.py:40-76 | each check contributes at most one issue however many policies match; with no recorded use the staleness check contributes exactly one |
| AwsRules.StaleBoundary | utils.py:41-56 | the threshold is strict: exactly `threshold` days (plus under a day) is not stale, `threshold + 1` days is |
| AwsRules.NoMfaNeverUsedUser | utils.py:28-64 | a user with no MFA device, no recorded use and no policies gets exactly [No MFA enabled, No record of password usage] |
| DirectoryRules.StaleLoginMessageIsDistinct | iam_audit.py:59-66 | a stale-login message is neither the MFA nor the admin message |
| DirectoryRules.StaleLoginMessageInjective | iam_audit.py:64 | the stale-login message determines the day count it embeds |
| DirectoryRules.EvaluateDirectoryUser | iam_audit.py:56-66 | at most 3 messages in order MFA, stale, admin. "No MFA enabled" iff MFAEnabled is missing or false. "Stale account (last login N days ago)" iff N is the elapsed days since the last-login midnight and N > 30. "User has admin privileges" iff the role is exactly "admin" |
| DirectoryRules.DirectoryChecksInOrder | iam_audit.py:57-66 | MFA message, then at most one stale message, then admin message, are in check order |
| DirectoryRules.StaleLoginBoundary | iam_audit.py:61-64 | 30 whole days after the last-login date is not stale, 31 days is |
| Audit.CollectFlagged | iam_audit.py:32-38 | an entry is appended for a user iff that user's issue list is non-empty; entries keep input order; each entry holds that user's name and issues; no entry is empty |
| Audit.AuditAws | iam_audit.py:21-38 | the AWS branch keeps, in input order, exactly the users whose compliance check is non-empty, each under its UserName. The check uses the configured threshold (default 180) and that user's own clock reading |
| Audit.AuditDirectory | iam_audit.py:56-71 | the directory branch keeps, in input order, exactly the users with at least one message, each under its UserName. Each user is evaluated at their own clock reading |
| Audit.SimulatedDirectoryOutcome | iam_audit.py:42-66 | on the built-in users, jane always has the MFA and admin issues, and john has only the stale message, exactly when his last login is more than 30 days old |

## Left out

- `generate_report` (utils.py:5-24): rendering through a Jinja2 template. Its exact output depends on Jinja's whitespace and undefined-attribute rules. For example, the directory issues are strings with no `.message`.
- The boto3 calls (`boto3.client`, `list_users`, `list_mfa_devices`, `list_attached_user_policies`): network I/O. Their answers are inputs (`AwsAccount`, `MfaDevicesResponse`, `AttachedPoliciesResponse`).
- `datetime.utcnow()`: the clock is an input. The evaluators take `now`. The audit loops take one reading per user (`nows`), because the source reads the clock again for every user (utils.py:43, iam_audit.py:62).
- `strptime` of `LastLogin` (iam_audit.py:61): library parsing. The date arrives as a day number, so the exception on a malformed date is not modelled.
- Argument parsing, the JSON config file, `os.makedirs`, writing the report and printing (iam_audit.py:9-27, 73-86): CLI and I/O plumbing. The `stale_threshold_days` lookup is kept: the value arrives as `configuredThreshold`, and 180 is used when the key is missing.
- Provider dispatch and the "not supported" message (iam_audit.py:18-21, 40, 73-75): plumbing around the two branches. The LDAP provider appears only in help text and has no rules.
- Missing `UserName` or `LastLogin` keys (a `KeyError` in the source): the model's record types always carry these fields.
- DirectoryRules.EvaluateDirectoryUser: `MFAEnabled` is taken to be a boolean when present. Other falsy values such as `0` or `""` are not modelled.
- AwsRules.CheckUserCompliance: `PasswordLastUsed` is an instant when present. A present but falsy value is modelled as `None`, as the source treats it. Dropping the time zone is not modelled: instants are already UTC.
- A stored `null` where the source expects a list, string or number: a `TypeError` in the source, not modelled. `AttachedPolicies: None` fails `for policy in None` (utils.py:66-69). `PolicyName: None` fails the `in` test (utils.py:70). A `null` `stale_threshold_days` fails the `>` comparison (iam_audit.py:25, utils.py:46). The model's fields hold a list, a string or a number whenever the key is present.
