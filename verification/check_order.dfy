/** Both rule sets run their checks in a fixed order and each check adds at
    most one issue. Giving every issue the position of the check that emits
    it, both facts together say: positions strictly increase along the list. */
module CheckOrder {

  /** Issues appear in the order of their checks, and no check appears twice. */
  ghost predicate InCheckOrder<T>(issues: seq<T>, position: T -> int)
  {
    forall i, j :: 0 <= i < j < |issues| ==> position(issues[i]) < position(issues[j])
  }

  /** How many issues of `issues` come from the check at `p`. */
  function CountAt<T>(issues: seq<T>, position: T -> int, p: int): nat
  {
    if |issues| == 0 then 0
    else (if position(issues[0]) == p then 1 else 0) + CountAt(issues[1..], position, p)
  }

  lemma {:induction false} NoneAbove<T>(issues: seq<T>, position: T -> int, p: int)
    requires forall i :: 0 <= i < |issues| ==> position(issues[i]) > p
    ensures CountAt(issues, position, p) == 0
    decreases |issues|
  {
    if |issues| > 0 {
      NoneAbove(issues[1..], position, p);
    }
  }

  /** In check order, every check contributes at most one issue. */
  lemma {:induction false} AtMostOncePerCheck<T>(issues: seq<T>, position: T -> int, p: int)
    requires InCheckOrder(issues, position)
    ensures CountAt(issues, position, p) <= 1
    decreases |issues|
  {
    if |issues| > 0 {
      var rest := issues[1..];
      assert InCheckOrder(rest, position) by {
        forall i, j | 0 <= i < j < |rest|
          ensures position(rest[i]) < position(rest[j])
        {
          assert rest[i] == issues[i + 1] && rest[j] == issues[j + 1];
        }
      }
      if position(issues[0]) == p {
        forall i | 0 <= i < |rest|
          ensures position(rest[i]) > p
        {
          assert rest[i] == issues[i + 1];
        }
        NoneAbove(rest, position, p);
      } else {
        AtMostOncePerCheck(rest, position, p);
      }
    }
  }

  /** A check that emitted some issue is counted at least once. */
  lemma {:induction false} CountAtPositive<T>(issues: seq<T>, position: T -> int, k: int)
    requires 0 <= k < |issues|
    ensures CountAt(issues, position, position(issues[k])) >= 1
    decreases |issues|
  {
    if k > 0 {
      assert issues[1..][k - 1] == issues[k];
      CountAtPositive(issues[1..], position, k - 1);
    }
  }
}
