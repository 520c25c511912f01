/**
  The three-step lesson wizard and its progress bar.
  A progress step shows one of three statuses, decided only by comparing its
  1-based position with the step currently shown.
 */
module Wizard {

  /** The last step of the lesson; the wizard never advances past it. */
  const MaxStep := 3

  datatype Status = Completed | Active | Pending

  /** The status of the progress step at 1-based position `i` while step `current` is shown. */
  function ProgressStatus(i: int, current: int): (st: Status)
    ensures st == Completed <==> i < current
    ensures st == Active <==> i == current
    ensures st == Pending <==> i > current
  {
    if i < current then Completed
    else if i == current then Active
    else Pending
  }

  /** A progress bar of `n` steps as the status refresh leaves it: position `k` shows step `k + 1`. */
  function Bar(n: nat, current: int): (bar: seq<Status>)
    ensures |bar| == n
  {
    seq(n, k => ProgressStatus(k + 1, current))
  }

  /** How many steps of `bar` show status `st`. */
  function CountStatus(bar: seq<Status>, st: Status): (c: nat)
    ensures c <= |bar|
  {
    if bar == [] then 0
    else CountStatus(bar[..|bar| - 1], st) + (if bar[|bar| - 1] == st then 1 else 0)
  }

  /** Number of completed steps in a bar of `n` steps while `current` is shown. */
  function CompletedCount(n: nat, current: int): nat
  {
    if current - 1 <= 0 then 0 else if current - 1 >= n then n else current - 1
  }

  /**
    The census of a refreshed bar of any length, for any current step: the steps
    before `current` are completed, `current` itself is active when it lies on the
    bar, and every other step is pending.
   */
  lemma {:induction false} BarCensus(n: nat, current: int)
    ensures CountStatus(Bar(n, current), Completed) == CompletedCount(n, current)
    ensures CountStatus(Bar(n, current), Active) == (if 1 <= current <= n then 1 else 0)
    ensures CountStatus(Bar(n, current), Pending)
         == n - CompletedCount(n, current) - (if 1 <= current <= n then 1 else 0)
  {
    if n > 0 {
      var bar := Bar(n, current);
      assert bar[..n - 1] == Bar(n - 1, current);
      assert bar[n - 1] == ProgressStatus(n, current);
      BarCensus(n - 1, current);
    }
  }

  /**
    While the current step lies on the bar, exactly one step is active,
    `current - 1` are completed and the rest are pending.
   */
  lemma ExactlyOneActive(n: nat, current: int)
    requires 1 <= current <= n
    ensures CountStatus(Bar(n, current), Active) == 1
    ensures CountStatus(Bar(n, current), Completed) == current - 1
    ensures CountStatus(Bar(n, current), Pending) == n - current
    ensures forall k | 0 <= k < n :: Bar(n, current)[k] == Active <==> k + 1 == current
  {
    BarCensus(n, current);
  }

  /** Moving the current step forward never takes a completed mark away. */
  lemma CompletedIsMonotone(n: nat, current: int, later: int)
    requires current <= later
    ensures forall k | 0 <= k < n && Bar(n, current)[k] == Completed :: Bar(n, later)[k] == Completed
  {
  }
}
