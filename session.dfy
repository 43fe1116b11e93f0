/** One read session (`readrec`) as a value, and the changes the entry points
    of the read path make to its lock, validity and staleness fields. */
module Session {
  import opened Chunks

  /** The staleness counter's ceiling: a record whose counter has reached it
      re-resolves chunk locations on its next read. */
  const REFRESHTICKS: nat := 15

  /** A read session. `inode` is the file it serves; `refreshCounter` counts
      sweep ticks since chunk locations were last prepared; `valid` is cleared
      when the session is closed; `locked` is set while a caller owns it;
      `waiting` counts callers waiting for the lock; `bufferLen` is the number
      of bytes in the session's read buffer. */
  datatype ReadRec = ReadRec(
    inode: uint32,
    refreshCounter: nat,
    valid: bool,
    locked: bool,
    waiting: nat,
    bufferLen: nat)

  /** A freshly created session for `inode`: open, free, unwaited, with an
      empty buffer and a staleness counter below the ceiling, so its first
      read does not force a preparation. */
  function NewRec(inode: uint32): (r: ReadRec)
    ensures r.inode == inode && r.valid && !r.locked && !WakesWaiter(r) && r.bufferLen == 0
    ensures r.refreshCounter < REFRESHTICKS
  {
    ReadRec(inode, 0, true, false, 0, 0)
  }

  /** Lock acquisition as read_data and read_data_end perform it on a session
      nobody holds: the caller counts itself as a waiter, finds the session
      free and so does not block, stops counting itself, and takes the lock. */
  function Acquire(r: ReadRec): (a: ReadRec)
    requires !r.locked
    ensures a.locked
    ensures a == r.(locked := true)
  {
    var counted := r.(waiting := r.waiting + 1);
    // the wait loop is not entered: the session is free
    var woken := counted.(waiting := counted.waiting - 1);
    woken.(locked := true)
  }

  /** Whether releasing the session wakes one waiter. */
  predicate WakesWaiter(r: ReadRec) {
    r.waiting > 0
  }

  /** read_data_end: take the lock, mark the session invalid, wake a waiter if
      there is one, and release the lock. The session stays where it is: the
      sweep reclaims it. */
  function Ended(r: ReadRec): (e: ReadRec)
    requires !r.locked
    ensures !e.valid && !e.locked
    ensures e == r.(valid := false)
  {
    var held := Acquire(r).(valid := false);
    held.(locked := false)
  }

  /** read_data_freebuff: wake a waiter if there is one and release the lock. */
  function Released(r: ReadRec): (f: ReadRec)
    ensures !f.locked
    ensures f.(locked := r.locked) == r
  {
    r.(locked := false)
  }

  /** One sweep tick: the staleness counter advances while below its ceiling. */
  function Aged(r: ReadRec): (g: ReadRec)
    ensures g.refreshCounter <= REFRESHTICKS || g.refreshCounter == r.refreshCounter
    ensures r.refreshCounter < REFRESHTICKS ==> g.refreshCounter == r.refreshCounter + 1
    ensures r.refreshCounter >= REFRESHTICKS ==> g.refreshCounter == r.refreshCounter
    ensures g.(refreshCounter := r.refreshCounter) == r
  {
    if r.refreshCounter < REFRESHTICKS then r.(refreshCounter := r.refreshCounter + 1) else r
  }

  /** The session after `n` sweep ticks with no read in between. */
  function AgedTimes(r: ReadRec, n: nat): ReadRec {
    if n == 0 then r else Aged(AgedTimes(r, n - 1))
  }

  /** Aging saturates: after `n` ticks a counter that started within bounds is
      `min(start + n, REFRESHTICKS)`, so it never exceeds the ceiling. */
  lemma {:induction false} AgingSaturates(r: ReadRec, n: nat)
    requires r.refreshCounter <= REFRESHTICKS
    ensures AgedTimes(r, n).refreshCounter ==
              if r.refreshCounter + n < REFRESHTICKS then r.refreshCounter + n else REFRESHTICKS
    ensures AgedTimes(r, n).(refreshCounter := r.refreshCounter) == r
  {
    if n > 0 {
      AgingSaturates(r, n - 1);
    }
  }

  /** A new session that is neither read nor closed stays open and free
      through any number of sweep ticks, and its counter reaches the ceiling,
      forcing a preparation, only after `REFRESHTICKS` ticks. */
  lemma FreshSessionAges(inode: uint32, n: nat)
    ensures var g := AgedTimes(NewRec(inode), n);
            g.valid && !g.locked && g.inode == inode &&
            (g.refreshCounter == REFRESHTICKS <==> n >= REFRESHTICKS)
  {
    AgingSaturates(NewRec(inode), n);
  }
}
