/**
 * The retry policy after a failed publish (`DELAYS` and `get_backoff`,
 * src/main.rs:39-40 and src/main.rs:260-267): a fixed ascending table of
 * waits in seconds, indexed from attempt 1 and capped at its last entry.
 */
module Backoff {

  /** 30 seconds, 1 minute, 5 minutes, 15 minutes. */
  const Delays: seq<nat> := [30, 60, 300, 900]

  /** The table only ever lengthens the wait. */
  predicate Ascending(t: seq<nat>) {
    forall i, j :: 0 <= i <= j < |t| ==> t[i] <= t[j]
  }

  /**
   * The wait after the `attempt`-th consecutive failure. Attempts count
   * from 1; `Delays[attempt - 1]` would underflow for 0. The result is
   * always an entry of the table and never more than its largest entry.
   */
  function GetBackoff(attempt: nat): (secs: nat)
    requires attempt >= 1
    ensures secs in Delays
    ensures secs <= Delays[|Delays| - 1]
  {
    if attempt > |Delays| then Delays[|Delays| - 1] else Delays[attempt - 1]
  }

  lemma DelaysAscending()
    ensures Ascending(Delays)
  {
  }

  /** Which entry answers which attempt: `Delays[a - 1]` inside the table, the last entry beyond it. */
  lemma BackoffEntries(a: nat)
    requires a >= 1
    ensures a <= 4 ==> GetBackoff(a) == [30, 60, 300, 900][a - 1]
    ensures a > 4 ==> GetBackoff(a) == 900
  {
  }

  /** A later attempt never waits less than an earlier one. */
  lemma BackoffMonotone(a: nat, b: nat)
    requires 1 <= a <= b
    ensures GetBackoff(a) <= GetBackoff(b)
  {
    DelaysAscending();
    if b <= |Delays| {
      assert Delays[a - 1] <= Delays[b - 1];
    } else if a <= |Delays| {
      assert Delays[a - 1] <= Delays[|Delays| - 1];
    }
  }

  /** Once the table is exhausted every further attempt waits the maximum, forever. */
  lemma BackoffCapped(a: nat, b: nat)
    requires |Delays| <= a <= b
    ensures GetBackoff(a) == GetBackoff(b) == 900
  {
  }
}
