/**
 * copyWithRetry: a bounded retry loop around one copyFile call. Busy and
 * access-denied errors are retried after a linear backoff; any other error,
 * or a busy error on the last attempt, ends the loop at once.
 */
module Retry {
  import opened Fs

  /** The attempt count syncDirectory uses. */
  const DefaultMaxRetries: int := 3

  /** An error whose code is one of the two the loop retries. */
  predicate Transient(r: IoResult) {
    r.Error? && (r.code == "EBUSY" || r.code == "EACCES")
  }

  /** The wait, in milliseconds, after failed attempt i (counted from 0). */
  function Backoff(i: nat): nat {
    100 * (i + 1)
  }

  /**
   * How the loop ends: the copy succeeded, the loop ran no attempt at all and
   * returned normally, or an error was thrown.
   */
  datatype Status = Copied | NoAttempt | Failed(error: IoResult)

  /** The status, the number of copy attempts made and the waits in between. */
  datatype Trace = Trace(status: Status, attempts: nat, waits: seq<nat>)

  /**
   * Reference definition of the loop from counter value i on, where
   * `outcome(i)` is what attempt i of copyFile reports.
   */
  function Run(outcome: nat -> IoResult, maxRetries: int, i: nat): Trace
    decreases maxRetries - i
  {
    if i >= maxRetries then Trace(NoAttempt, i, [])
    else if outcome(i) == Ok then Trace(Copied, i + 1, [])
    else if Transient(outcome(i)) && i < maxRetries - 1 then
      var rest := Run(outcome, maxRetries, i + 1);
      Trace(rest.status, rest.attempts, [Backoff(i)] + rest.waits)
    else Trace(Failed(outcome(i)), i + 1, [])
  }

  /** The shape of every run from counter value i on. */
  lemma {:induction false} RunShape(outcome: nat -> IoResult, maxRetries: int, i: nat)
    ensures var t := Run(outcome, maxRetries, i);
      && (t.status == NoAttempt <==> i >= maxRetries)
      && (i >= maxRetries ==> t.attempts == i && t.waits == [])
      && (i < maxRetries ==> i < t.attempts <= maxRetries && |t.waits| == t.attempts - i - 1)
      && (forall j :: 0 <= j < |t.waits| ==> t.waits[j] == Backoff(i + j))
      && (forall j :: i <= j < t.attempts - 1 ==> Transient(outcome(j)))
      && (t.status == Copied ==> outcome(t.attempts - 1) == Ok)
      && (t.status.Failed? ==>
            t.status.error == outcome(t.attempts - 1) && t.status.error != Ok &&
            (!Transient(t.status.error) || t.attempts == maxRetries))
    decreases maxRetries - i
  {
    if i < maxRetries && outcome(i) != Ok && Transient(outcome(i)) && i < maxRetries - 1 {
      RunShape(outcome, maxRetries, i + 1);
      var rest := Run(outcome, maxRetries, i + 1);
      var t := Run(outcome, maxRetries, i);
      forall j | 0 <= j < |t.waits| ensures t.waits[j] == Backoff(i + j) {
        if j > 0 {
          assert t.waits[j] == rest.waits[j - 1];
        }
      }
    }
  }

  /** At most maxRetries attempts; none at all, and a normal return, when maxRetries <= 0. */
  lemma AttemptsBounded(outcome: nat -> IoResult, maxRetries: int)
    ensures maxRetries <= 0 ==> Run(outcome, maxRetries, 0) == Trace(NoAttempt, 0, [])
    ensures maxRetries > 0 ==> 1 <= Run(outcome, maxRetries, 0).attempts <= maxRetries
    ensures maxRetries > 0 ==> Run(outcome, maxRetries, 0).status != NoAttempt
  {
    RunShape(outcome, maxRetries, 0);
  }

  /**
   * Waits of 100, 200, ... ms, one after each failed attempt that is retried,
   * none after the last attempt; every attempt but the last reported a busy or
   * access-denied error.
   */
  lemma WaitSchedule(outcome: nat -> IoResult, maxRetries: int)
    requires maxRetries > 0
    ensures var t := Run(outcome, maxRetries, 0);
      && |t.waits| == t.attempts - 1
      && (forall j :: 0 <= j < |t.waits| ==> t.waits[j] == 100 * (j + 1))
      && (forall j :: 0 <= j < t.attempts - 1 ==> Transient(outcome(j)))
  {
    RunShape(outcome, maxRetries, 0);
  }

  /**
   * A failure is thrown at once for an error other than busy/access-denied, and
   * for a busy/access-denied error only on the last permitted attempt.
   */
  lemma FailureCause(outcome: nat -> IoResult, maxRetries: int)
    requires Run(outcome, maxRetries, 0).status.Failed?
    ensures var t := Run(outcome, maxRetries, 0);
      && t.attempts >= 1
      && t.status.error == outcome(t.attempts - 1) && t.status.error != Ok
      && (Transient(t.status.error) ==> t.attempts == maxRetries)
  {
    RunShape(outcome, maxRetries, 0);
  }

  /** A run that reaches attempt k, which succeeds, stops there: k + 1 attempts. */
  lemma {:induction false} StopsAtFirstSuccess(outcome: nat -> IoResult, maxRetries: int, i: nat, k: nat)
    requires i <= k < maxRetries && outcome(k) == Ok
    requires forall j :: i <= j < k ==> Transient(outcome(j))
    ensures Run(outcome, maxRetries, i).status == Copied
    ensures Run(outcome, maxRetries, i).attempts == k + 1
    decreases k - i
  {
    if i < k {
      StopsAtFirstSuccess(outcome, maxRetries, i + 1, k);
    }
  }

  /**
   * The copy succeeds exactly when some attempt k below maxRetries succeeds
   * after k busy/access-denied failures; it is then attempt k + 1 that returns.
   */
  lemma CopiedIff(outcome: nat -> IoResult, maxRetries: int)
    ensures Run(outcome, maxRetries, 0).status == Copied <==>
      exists k: nat :: k < maxRetries && outcome(k) == Ok && forall j :: 0 <= j < k ==> Transient(outcome(j))
  {
    var t := Run(outcome, maxRetries, 0);
    RunShape(outcome, maxRetries, 0);
    if t.status == Copied {
      var k: nat := t.attempts - 1;
      assert k < maxRetries && outcome(k) == Ok;
    }
    if exists k: nat :: k < maxRetries && outcome(k) == Ok && forall j :: 0 <= j < k ==> Transient(outcome(j)) {
      var k: nat :| k < maxRetries && outcome(k) == Ok && forall j :: 0 <= j < k ==> Transient(outcome(j));
      StopsAtFirstSuccess(outcome, maxRetries, 0, k);
    }
  }

  /** Two transient failures, then success: three attempts, waits of 100 and 200 ms. */
  lemma RetryThenSucceed(outcome: nat -> IoResult)
    requires Transient(outcome(0)) && Transient(outcome(1)) && outcome(2) == Ok
    ensures Run(outcome, DefaultMaxRetries, 0) == Trace(Copied, 3, [100, 200])
  {
  }

  /** Three transient failures: the third error is thrown after waits of 100 and 200 ms. */
  lemma RetryExhausted(outcome: nat -> IoResult)
    requires Transient(outcome(0)) && Transient(outcome(1)) && Transient(outcome(2))
    ensures Run(outcome, DefaultMaxRetries, 0) == Trace(Failed(outcome(2)), 3, [100, 200])
  {
  }

  /**
   * copyWithRetry(src, dest, maxRetries): copies `file` to `dest` on `fs`,
   * where attempt i reports outcome(i) and a successful copy stamps `now`.
   * The returned trace says how the call ended (Failed stands for the thrown
   * error), how many attempts it made and which waits it slept.
   */
  method CopyWithRetry(fs: FileSystem, file: Node, dest: Path, now: int,
                       outcome: nat -> IoResult, maxRetries: int) returns (t: Trace)
    requires file.File?
    modifies fs
    ensures t == Run(outcome, maxRetries, 0)
    ensures fs.nodes == if t.status == Copied then old(fs.nodes)[dest := CopyOf(file, now)] else old(fs.nodes)
  {
    var i: nat := 0;
    var waits: seq<nat> := [];
    while i < maxRetries
      invariant i == 0 || i < maxRetries
      invariant |waits| == i
      invariant Run(outcome, maxRetries, 0) ==
        Trace(Run(outcome, maxRetries, i).status, Run(outcome, maxRetries, i).attempts,
              waits + Run(outcome, maxRetries, i).waits)
      invariant fs.nodes == old(fs.nodes)
      decreases maxRetries - i
    {
      var r := outcome(i);
      fs.CopyFile(file, dest, now, r);
      if r == Ok {
        return Trace(Copied, i + 1, waits);
      }
      if Transient(r) && i < maxRetries - 1 {
        var rest := Run(outcome, maxRetries, i + 1);
        assert Run(outcome, maxRetries, i) == Trace(rest.status, rest.attempts, [Backoff(i)] + rest.waits);
        assert waits + ([Backoff(i)] + rest.waits) == (waits + [Backoff(i)]) + rest.waits;
        waits := waits + [Backoff(i)];
        i := i + 1;
        continue;
      }
      return Trace(Failed(r), i + 1, waits);
    }
    t := Trace(NoAttempt, i, waits);
  }
}
