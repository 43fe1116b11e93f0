/** The three failure classes the chunk reader reports, and how read_data
    answers each: wait and try again, or give up with an error number. */
module RetryPolicy {

  /** errno values read_data returns. */
  const EIO: nat := 5
  const EBADF: nat := 9

  /** The filesystem status code meaning "no such object". */
  const ERROR_ENOENT: nat := 3

  /** Seconds read_data waits between retries of a chunk with no readable copy. */
  const NO_VALID_COPIES_LONG_WAIT: nat := 60

  datatype Failure =
    | NoValidCopies              // no replica or part of the chunk is readable now
    | Recoverable                // a transient fault, expected to heal
    | Unrecoverable(status: nat) // the chunk is gone or inaccessible; `status` says why

  /** What one call into the chunk reader yields: `Ok(n)` (for a data read, n
      bytes), or a failure of one of the three classes. */
  datatype Outcome = Ok(n: nat) | Failed(failure: Failure)

  /** The reaction to a failure: sleep `delay` seconds and continue with the
      try counter at `tries`, or return `errno`. */
  datatype Decision = Backoff(delay: nat, tries: nat) | GiveUp(errno: nat)

  /** The wait before retrying after a recoverable failure, given the try counter:
      none on the first failure, then one second more for every three tries,
      capped at eleven seconds. */
  function RecoverableDelay(tries: nat): (d: nat)
    ensures d == 0 <==> tries == 0
    ensures d <= 11
    ensures 0 < tries < 30 ==> d == 1 + tries / 3
    ensures tries >= 30 ==> d == 11
  {
    if tries == 0 then 0 else 1 + (if tries < 30 then tries / 3 else 10)
  }

  /** The waits grow with the try counter. */
  lemma RecoverableDelayGrows(a: nat, b: nat)
    requires a <= b
    ensures RecoverableDelay(a) <= RecoverableDelay(b)
  {
    if 0 < a && b < 30 {
      assert a / 3 <= b / 3;
    }
  }

  /** The policy of read_data for a failure met with the try counter at `tries`.
      Unrecoverable failures end the read at once, as a stale handle when the
      object is missing and an I/O error otherwise; the two retryable classes
      end it with an I/O error once the counter has passed `maxRetries`, and
      otherwise back off and advance the counter. */
  function Decide(f: Failure, tries: nat, maxRetries: nat): (d: Decision)
    ensures d.GiveUp? <==> f.Unrecoverable? || tries > maxRetries
    ensures d.GiveUp? ==> (d.errno == EBADF <==> f == Unrecoverable(ERROR_ENOENT))
    ensures d.GiveUp? ==> d.errno == EIO || d.errno == EBADF
    ensures d.Backoff? ==> tries < d.tries <= maxRetries + 6
    ensures d.Backoff? && f.Recoverable? ==>
              d.tries == tries + 1 && d.delay == RecoverableDelay(tries)
    ensures d.Backoff? && f.NoValidCopies? ==>
              if tries == 0 then d.delay == 1 && d.tries == 1
              else d.delay == NO_VALID_COPIES_LONG_WAIT && d.tries == tries + 6
  {
    match f
    case Unrecoverable(status) =>
      GiveUp(if status == ERROR_ENOENT then EBADF else EIO)
    case NoValidCopies =>
      if tries > maxRetries then GiveUp(EIO)
      else if tries > 0 then Backoff(NO_VALID_COPIES_LONG_WAIT, tries + 6)
      else Backoff(1, tries + 1)
    case Recoverable =>
      if tries > maxRetries then GiveUp(EIO)
      else Backoff(RecoverableDelay(tries), tries + 1)
  }

  /** Total wait spent on recoverable failures met with the try counter at
      `lo`, `lo + 1`, ..., `hi - 1`. */
  function RecoverableBackoff(lo: nat, hi: nat): nat
    decreases hi - lo
  {
    if lo >= hi then 0 else RecoverableDelay(lo) + RecoverableBackoff(lo + 1, hi)
  }

  /** Recoverable failures cost at most eleven seconds each, and the one met
      with the counter at zero costs nothing. */
  lemma {:induction false} RecoverableBackoffBound(lo: nat, hi: nat)
    requires lo <= hi
    ensures RecoverableBackoff(lo, hi) <= 11 * (hi - lo)
    ensures lo == 0 < hi ==> RecoverableBackoff(lo, hi) <= 11 * (hi - 1)
    decreases hi - lo
  {
    if lo < hi {
      RecoverableBackoffBound(lo + 1, hi);
    }
  }

  /** Waiting the delay for the counter at `lo`, then the waits for `lo + 1`
      up to `hi`, is waiting the waits from `lo` up to `hi`. */
  lemma BackoffAccumulates(before: nat, middle: nat, after: nat, lo: nat, hi: nat)
    requires lo < hi
    requires middle == before + RecoverableDelay(lo)
    requires after == middle + RecoverableBackoff(lo + 1, hi)
    ensures after == before + RecoverableBackoff(lo, hi)
  {
  }
}
