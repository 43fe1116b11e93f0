/** What read_data does with one request: the loop that cuts the byte range
    into chunk-sized sub-reads, prepares chunk locations, counts bytes and
    retries failures, stated as functions over the loop's state, with the
    chunk reader as an oracle. */
module ReadLoop {
  import opened Chunks
  import opened RetryPolicy
  import opened Session

  /** A call read_data makes into the chunk reader, with what it yielded, or a
      sleep between retries. */
  datatype Event =
    | Prepare(inode: nat, chunkIndex: nat, outcome: Outcome)
    | Read(chunkIndex: nat, offsetInChunk: nat, size: nat, outcome: Outcome)
    | Sleep(seconds: nat)

  /** Bytes a data read that asked for `asked` bytes and was answered `Ok(n)`
      adds to the result, on the assumption that a read never delivers more
      than it asked for. */
  function Served(n: nat, asked: nat): (m: nat)
    ensures m <= asked
    ensures m < asked <==> n < asked
    ensures n <= asked ==> m == n
  {
    if n < asked then n else asked
  }

  function Got(e: Event): nat {
    if e.Read? && e.outcome.Ok? then Served(e.outcome.n, e.size) else 0
  }

  function Slept(e: Event): nat {
    if e.Sleep? then e.seconds else 0
  }

  /** The bytes the data reads of a trace delivered, in order. */
  function BytesDelivered(t: seq<Event>): nat {
    if t == [] then 0 else BytesDelivered(t[..|t| - 1]) + Got(t[|t| - 1])
  }

  /** The seconds a trace spent sleeping. */
  function TotalDelay(t: seq<Event>): nat {
    if t == [] then 0 else TotalDelay(t[..|t| - 1]) + Slept(t[|t| - 1])
  }

  lemma {:induction false} DeliveredAppend(t: seq<Event>, u: seq<Event>)
    ensures BytesDelivered(t + u) == BytesDelivered(t) + BytesDelivered(u)
    decreases |u|
  {
    if u == [] {
      assert t + u == t;
    } else {
      var w := u[..|u| - 1];
      assert (t + u)[..|t + u| - 1] == t + w;
      DeliveredAppend(t, w);
    }
  }

  lemma {:induction false} DelayAppend(t: seq<Event>, u: seq<Event>)
    ensures TotalDelay(t + u) == TotalDelay(t) + TotalDelay(u)
    decreases |u|
  {
    if u == [] {
      assert t + u == t;
    } else {
      var w := u[..|u| - 1];
      assert (t + u)[..|t + u| - 1] == t + w;
      DelayAppend(t, w);
    }
  }

  /** The local state of read_data's loop: the position, bytes read and still
      to read, the try counter, whether the next chunk must be prepared again,
      the (inode, chunk) pair last prepared, the number of reader calls so far
      (the oracle's index), the calls and sleeps made so far, and whether any
      preparation succeeded (each one zeroes the staleness counter). */
  datatype Loop = Loop(
    offset: nat,
    bytesRead: nat,
    left: nat,
    tries: nat,
    force: bool,
    preparedInode: nat,
    preparedChunk: nat,
    calls: nat,
    trace: seq<Event>,
    refreshed: bool)

  datatype Next = Continue(st: Loop) | Finish(st: Loop, status: nat)

  datatype Final = Final(st: Loop, status: nat)

  /** The loop state when read_data starts on `size` bytes at `offset`. The
      prepared inode starts at 0, which no real inode equals. */
  function Start(offset: nat, size: nat, force: bool): Loop {
    Loop(offset, 0, size, 0, force, 0, 0, 0, [], false)
  }

  /** The catch clauses: both retryable classes force a new preparation, then
      the policy decides between backing off and returning an error. */
  function AfterFailure(st: Loop, f: Failure, maxRetries: nat): (next: Next)
    requires st.tries <= maxRetries + 6
    ensures next.st.left == st.left && next.st.bytesRead == st.bytesRead && next.st.offset == st.offset
    ensures next.st.tries <= maxRetries + 6
    ensures next.Continue? ==> st.tries < next.st.tries && next.st.force
    ensures next.Finish? ==>
              next.st.trace == st.trace && next.st.tries == st.tries &&
              Decide(f, st.tries, maxRetries) == GiveUp(next.status)
    ensures st.trace <= next.st.trace
  {
    var marked := if f.Unrecoverable? then st else st.(force := true);
    match Decide(f, st.tries, maxRetries)
    case GiveUp(errno) => Finish(marked, errno)
    case Backoff(delay, tries) =>
      Continue(marked.(tries := tries, trace := if delay > 0 then marked.trace + [Sleep(delay)] else marked.trace))
  }

  /** One data read of the sub-read `sub`: advance by what came back; a short
      answer is end of file and ends the loop; a full one resets the try counter. */
  function ReadSubChunk(st: Loop, sub: SubRead, reader: nat -> Outcome, maxRetries: nat): (next: Next)
    requires st.tries <= maxRetries + 6
    requires 0 < sub.size <= st.left
    ensures next.st.bytesRead + next.st.left == st.bytesRead + st.left
    ensures next.st.tries <= maxRetries + 6
    ensures next.Continue? ==>
              next.st.left < st.left || (next.st.left == st.left && next.st.tries > st.tries)
    ensures st.trace <= next.st.trace
    ensures next.Continue? && next.st.left < st.left ==> next.st.tries == 0
    ensures reader(st.calls).Ok? ==>
              (next.Finish? <==> reader(st.calls).n < sub.size) && (next.Finish? ==> next.status == 0)
    ensures var o := reader(st.calls);
            o.Ok? ==>
              next.st.bytesRead == st.bytesRead + Served(o.n, sub.size) &&
              next.st.offset == st.offset + Served(o.n, sub.size) &&
              (next.Continue? ==> next.st.tries == 0)
    ensures var o := reader(st.calls);
            o.Failed? ==>
              next.st.left == st.left && next.st.bytesRead == st.bytesRead && next.st.offset == st.offset &&
              (next.Finish? <==> Decide(o.failure, st.tries, maxRetries).GiveUp?) &&
              (next.Finish? ==> Decide(o.failure, st.tries, maxRetries) == GiveUp(next.status))
    ensures |next.st.trace| > |st.trace| &&
            next.st.trace[|st.trace|] == Read(sub.chunkIndex, sub.offsetInChunk, sub.size, reader(st.calls))
  {
    var o := reader(st.calls);
    if o.Failed? then
      var called := st.(calls := st.calls + 1,
                        trace := st.trace + [Read(sub.chunkIndex, sub.offsetInChunk, sub.size, o)]);
      AfterFailure(called, o.failure, maxRetries)
    else
      var got := Served(o.n, sub.size);
      var advanced := Advanced(st, sub, o, got);
      if got < sub.size then Finish(advanced, 0)
      else Continue(advanced.(tries := 0))
  }

  /** One pass of the loop body: prepare the chunk when forced or when the
      (inode, chunk) pair differs from the prepared one, then read the sub-read. */
  function Step(st: Loop, inode: nat, reader: nat -> Outcome, maxRetries: nat): (next: Next)
    requires st.left > 0 && st.tries <= maxRetries + 6
    ensures next.st.bytesRead + next.st.left == st.bytesRead + st.left
    ensures next.st.tries <= maxRetries + 6
    ensures next.Continue? ==>
              next.st.left < st.left || (next.st.left == st.left && next.st.tries > st.tries)
    ensures st.trace <= next.st.trace
    ensures next.Continue? && next.st.left < st.left ==> next.st.tries == 0
  {
    var sub := NextSubRead(st.offset, st.left);
    if st.force || st.preparedInode != inode || st.preparedChunk != sub.chunkIndex then
      var o := reader(st.calls);
      var called := st.(calls := st.calls + 1,
                        trace := st.trace + [Prepare(inode, sub.chunkIndex, o)]);
      if o.Failed? then AfterFailure(called, o.failure, maxRetries)
      else
        ReadSubChunk(called.(preparedChunk := sub.chunkIndex, preparedInode := inode,
                             force := false, refreshed := true),
                     sub, reader, maxRetries)
    else
      ReadSubChunk(st, sub, reader, maxRetries)
  }

  /** The loop run to its end: every request ends, by reading all of it, by a
      short read, or by an error, and bytes read plus bytes left is constant. */
  function Run(st: Loop, inode: nat, reader: nat -> Outcome, maxRetries: nat): (f: Final)
    requires st.tries <= maxRetries + 6
    ensures f.st.bytesRead + f.st.left == st.bytesRead + st.left
    ensures f.st.tries <= maxRetries + 6
    ensures st.trace <= f.st.trace
    decreases st.left, maxRetries + 6 - st.tries
  {
    if st.left == 0 then Final(st, 0)
    else
      match Step(st, inode, reader, maxRetries)
      case Continue(next) => Run(next, inode, reader, maxRetries)
      case Finish(last, status) => Final(last, status)
  }

  /** The result of read_data on a session: the status it returns, the size it
      reports (the request's own size when it fails), the reader calls and
      sleeps it made, and the session afterwards. */
  datatype ReadResult = ReadResult(status: nat, size: nat, trace: seq<Event>, rec: ReadRec)

  /** read_data on a free session: lock it, note whether it is stale, return at
      once for an empty request, otherwise empty the buffer and run the loop. */
  function ReadOutcome(r: ReadRec, offset: nat, size: uint32, reader: nat -> Outcome, maxRetries: nat)
    : (res: ReadResult)
    requires !r.locked
    requires offset % MFSBLOCKSIZE == 0 && size % MFSBLOCKSIZE == 0
    ensures res.rec.locked
    ensures res.rec.(locked := false, refreshCounter := r.refreshCounter, bufferLen := r.bufferLen) == r
    ensures res.rec.refreshCounter == r.refreshCounter || res.rec.refreshCounter == 0
    ensures size == 0 ==> res == ReadResult(0, 0, [], r.(locked := true))
    ensures res.status == 0 ==> res.size <= size
  {
    var held := Acquire(r);
    var forcePrepare := held.refreshCounter == REFRESHTICKS;
    if size == 0 then ReadResult(0, 0, [], held)
    else
      var f := Run(Start(offset, size, forcePrepare), r.inode, reader, maxRetries);
      ReadResult(f.status, if f.status == 0 then f.st.bytesRead else size, f.st.trace,
                 held.(refreshCounter := if f.st.refreshed then 0 else held.refreshCounter,
                       bufferLen := f.st.bytesRead))
  }

  // ---------------------------------------------------------------------
  // Sub-reads stay in their chunk and follow each other without gaps

  /** The byte of the file a data read starts at. */
  function Position(e: Event): nat
    requires e.Read?
  {
    e.chunkIndex * MFSCHUNKSIZE + e.offsetInChunk
  }

  /** A data read stays inside one chunk and asks for at least one byte. */
  predicate InChunk(e: Event) {
    e.Read? ==> 0 < e.size && e.offsetInChunk + e.size <= MFSCHUNKSIZE
  }

  /** Every data read of `t` stays in its chunk and starts where the bytes
      delivered before it end, counting from `origin`. */
  predicate TraceInOrder(t: seq<Event>, origin: nat) {
    t == [] ||
    (var prefix, e := t[..|t| - 1], t[|t| - 1];
     TraceInOrder(prefix, origin) &&
     (e.Read? ==> InChunk(e) && Position(e) == origin + BytesDelivered(prefix)))
  }

  /** The loop's counters agree with its trace. */
  predicate Accounted(st: Loop, origin: nat) {
    && TraceInOrder(st.trace, origin)
    && st.bytesRead == BytesDelivered(st.trace)
    && st.offset == origin + st.bytesRead
  }

  /** A data read answered with fewer bytes than it asked for: end of file. */
  predicate ShortRead(e: Event) {
    e.Read? && e.outcome.Ok? && e.outcome.n < e.size
  }

  /** The last event of `t` is a short data read. */
  predicate EndsShort(t: seq<Event>) {
    |t| > 0 && ShortRead(t[|t| - 1])
  }

  lemma AppendInOrder(t: seq<Event>, e: Event, origin: nat)
    requires TraceInOrder(t, origin)
    requires e.Read? ==> InChunk(e) && Position(e) == origin + BytesDelivered(t)
    ensures TraceInOrder(t + [e], origin)
    ensures BytesDelivered(t + [e]) == BytesDelivered(t) + Got(e)
  {
    var u := t + [e];
    assert u[..|u| - 1] == t;
  }

  lemma AfterFailureAccounted(st: Loop, f: Failure, maxRetries: nat, origin: nat)
    requires st.tries <= maxRetries + 6 && Accounted(st, origin)
    ensures Accounted(AfterFailure(st, f, maxRetries).st, origin)
  {
    match Decide(f, st.tries, maxRetries)
    case GiveUp(_) =>
    case Backoff(delay, _) =>
      if delay > 0 {
        AppendInOrder(st.trace, Sleep(delay), origin);
      }
  }

  lemma ReadSubChunkAccounted(st: Loop, sub: SubRead, reader: nat -> Outcome, maxRetries: nat, origin: nat)
    requires st.tries <= maxRetries + 6 && st.left > 0 && Accounted(st, origin)
    requires sub == NextSubRead(st.offset, st.left)
    ensures var next := ReadSubChunk(st, sub, reader, maxRetries);
            Accounted(next.st, origin) &&
            (next.Finish? && next.status == 0 ==> EndsShort(next.st.trace))
  {
    if reader(st.calls).Failed? {
      FailedReadAccounted(st, sub, reader, maxRetries, origin);
    } else {
      ServedReadAccounted(st, sub, reader, maxRetries, origin);
    }
  }

  lemma FailedReadAccounted(st: Loop, sub: SubRead, reader: nat -> Outcome, maxRetries: nat, origin: nat)
    requires st.tries <= maxRetries + 6 && st.left > 0 && Accounted(st, origin)
    requires sub == NextSubRead(st.offset, st.left)
    requires reader(st.calls).Failed?
    ensures var next := ReadSubChunk(st, sub, reader, maxRetries);
            Accounted(next.st, origin) &&
            (next.Finish? && next.status == 0 ==> EndsShort(next.st.trace))
  {
    var o := reader(st.calls);
    var e := Read(sub.chunkIndex, sub.offsetInChunk, sub.size, o);
    var called := st.(calls := st.calls + 1, trace := st.trace + [e]);
    assert ReadSubChunk(st, sub, reader, maxRetries) == AfterFailure(called, o.failure, maxRetries);
    assert Accounted(called, origin) by {
      AppendInOrder(st.trace, e, origin);
    }
    AfterFailureAccounted(called, o.failure, maxRetries, origin);
  }

  /** The loop state after a data read of `sub` answered with `got` bytes. */
  function Advanced(st: Loop, sub: SubRead, o: Outcome, got: nat): Loop
    requires got <= st.left
  {
    st.(calls := st.calls + 1,
        trace := st.trace + [Read(sub.chunkIndex, sub.offsetInChunk, sub.size, o)],
        bytesRead := st.bytesRead + got,
        offset := st.offset + got,
        left := st.left - got)
  }

  lemma AdvancedAccounted(st: Loop, sub: SubRead, n: nat, origin: nat)
    requires st.left > 0 && Accounted(st, origin)
    requires sub == NextSubRead(st.offset, st.left)
    ensures Accounted(Advanced(st, sub, Ok(n), Served(n, sub.size)), origin)
  {
    AppendInOrder(st.trace, Read(sub.chunkIndex, sub.offsetInChunk, sub.size, Ok(n)), origin);
  }

  lemma ServedReadAccounted(st: Loop, sub: SubRead, reader: nat -> Outcome, maxRetries: nat, origin: nat)
    requires st.tries <= maxRetries + 6 && st.left > 0 && Accounted(st, origin)
    requires sub == NextSubRead(st.offset, st.left)
    requires reader(st.calls).Ok?
    ensures var next := ReadSubChunk(st, sub, reader, maxRetries);
            Accounted(next.st, origin) &&
            (next.Finish? && next.status == 0 ==> EndsShort(next.st.trace))
  {
    var o := reader(st.calls);
    var got := Served(o.n, sub.size);
    var advanced := Advanced(st, sub, o, got);
    AdvancedAccounted(st, sub, o.n, origin);
    if got < sub.size {
      assert ReadSubChunk(st, sub, reader, maxRetries) == Finish(advanced, 0);
    } else {
      assert ReadSubChunk(st, sub, reader, maxRetries) == Continue(advanced.(tries := 0));
    }
  }

  lemma StepAccounted(st: Loop, inode: nat, reader: nat -> Outcome, maxRetries: nat, origin: nat)
    requires st.left > 0 && st.tries <= maxRetries + 6 && Accounted(st, origin)
    ensures var next := Step(st, inode, reader, maxRetries);
            Accounted(next.st, origin) &&
            (next.Finish? && next.status == 0 ==> EndsShort(next.st.trace))
  {
    var sub := NextSubRead(st.offset, st.left);
    if st.force || st.preparedInode != inode || st.preparedChunk != sub.chunkIndex {
      PreparingStepAccounted(st, inode, reader, maxRetries, origin);
    } else {
      assert Step(st, inode, reader, maxRetries) == ReadSubChunk(st, sub, reader, maxRetries);
      ReadSubChunkAccounted(st, sub, reader, maxRetries, origin);
    }
  }

  lemma PreparingStepAccounted(st: Loop, inode: nat, reader: nat -> Outcome, maxRetries: nat, origin: nat)
    requires st.left > 0 && st.tries <= maxRetries + 6 && Accounted(st, origin)
    requires var sub := NextSubRead(st.offset, st.left);
             st.force || st.preparedInode != inode || st.preparedChunk != sub.chunkIndex
    ensures var next := Step(st, inode, reader, maxRetries);
            Accounted(next.st, origin) &&
            (next.Finish? && next.status == 0 ==> EndsShort(next.st.trace))
  {
    if reader(st.calls).Failed? {
      PrepareFailsAccounted(st, inode, reader, maxRetries, origin);
    } else {
      PrepareServesAccounted(st, inode, reader, maxRetries, origin);
    }
  }

  /** A preparation call that fails leads to the failure policy. */
  lemma PrepareFailsAccounted(st: Loop, inode: nat, reader: nat -> Outcome, maxRetries: nat, origin: nat)
    requires st.left > 0 && st.tries <= maxRetries + 6 && Accounted(st, origin)
    requires var sub := NextSubRead(st.offset, st.left);
             st.force || st.preparedInode != inode || st.preparedChunk != sub.chunkIndex
    requires reader(st.calls).Failed?
    ensures var next := Step(st, inode, reader, maxRetries);
            Accounted(next.st, origin) &&
            (next.Finish? && next.status == 0 ==> EndsShort(next.st.trace))
  {
    var sub := NextSubRead(st.offset, st.left);
    var o := reader(st.calls);
    var called := st.(calls := st.calls + 1, trace := st.trace + [Prepare(inode, sub.chunkIndex, o)]);
    PrepareAccounted(st, Prepare(inode, sub.chunkIndex, o), origin);
    assert Step(st, inode, reader, maxRetries) == AfterFailure(called, o.failure, maxRetries);
    AfterFailureAccounted(called, o.failure, maxRetries, origin);
  }

  /** A preparation call that succeeds leads to the data read. */
  lemma PrepareServesAccounted(st: Loop, inode: nat, reader: nat -> Outcome, maxRetries: nat, origin: nat)
    requires st.left > 0 && st.tries <= maxRetries + 6 && Accounted(st, origin)
    requires var sub := NextSubRead(st.offset, st.left);
             st.force || st.preparedInode != inode || st.preparedChunk != sub.chunkIndex
    requires reader(st.calls).Ok?
    ensures var next := Step(st, inode, reader, maxRetries);
            Accounted(next.st, origin) &&
            (next.Finish? && next.status == 0 ==> EndsShort(next.st.trace))
  {
    var sub := NextSubRead(st.offset, st.left);
    var o := reader(st.calls);
    var called := st.(calls := st.calls + 1, trace := st.trace + [Prepare(inode, sub.chunkIndex, o)]);
    PrepareAccounted(st, Prepare(inode, sub.chunkIndex, o), origin);
    var ready := called.(preparedChunk := sub.chunkIndex, preparedInode := inode,
                         force := false, refreshed := true);
    assert Step(st, inode, reader, maxRetries) == ReadSubChunk(ready, sub, reader, maxRetries);
    ReadSubChunkAccounted(ready, sub, reader, maxRetries, origin);
  }

  /** Recording a preparation call delivers no bytes and moves nothing. */
  lemma PrepareAccounted(st: Loop, e: Event, origin: nat)
    requires e.Prepare? && Accounted(st, origin)
    ensures Accounted(st.(calls := st.calls + 1, trace := st.trace + [e]), origin)
    ensures Accounted(st.(calls := st.calls + 1, trace := st.trace + [e], preparedChunk := e.chunkIndex,
                          preparedInode := e.inode, force := false, refreshed := true), origin)
  {
    AppendInOrder(st.trace, e, origin);
  }

  /** Over the whole loop: every sub-read stays inside one chunk and asks for
      at least one byte; successful sub-reads follow each other from the
      request's offset without gap or overlap; the bytes read are exactly the
      bytes the sub-reads delivered; and a successful run that read less than
      asked ended on a short sub-read. */
  lemma {:induction false} RunAccounted(st: Loop, inode: nat, reader: nat -> Outcome, maxRetries: nat, origin: nat)
    requires st.tries <= maxRetries + 6 && Accounted(st, origin)
    ensures var f := Run(st, inode, reader, maxRetries);
            Accounted(f.st, origin) &&
            (f.status == 0 && f.st.left > 0 ==> EndsShort(f.st.trace))
    decreases st.left, maxRetries + 6 - st.tries
  {
    if st.left > 0 {
      StepAccounted(st, inode, reader, maxRetries, origin);
      var next := Step(st, inode, reader, maxRetries);
      if next.Continue? {
        RunAccounted(next.st, inode, reader, maxRetries, origin);
      }
    }
  }

  // ---------------------------------------------------------------------
  // A short data read ends the loop

  /** No event of `t` is a short data read. */
  predicate NoShortRead(t: seq<Event>) {
    forall i :: 0 <= i < |t| ==> !ShortRead(t[i])
  }

  /** A short data read occurs in `t` at most as its last event. */
  predicate ShortOnlyAtEnd(t: seq<Event>) {
    forall i :: 0 <= i < |t| - 1 ==> !ShortRead(t[i])
  }

  /** What one pass promises about short reads: a pass that goes on made
      none, and one that stops made one at most as its last call, in which
      case it stops with status 0 and bytes still unread. */
  predicate StopsOnShort(next: Next) {
    if next.Continue? then NoShortRead(next.st.trace)
    else ShortOnlyAtEnd(next.st.trace) &&
         (EndsShort(next.st.trace) ==> next.status == 0 && next.st.left > 0)
  }

  lemma AppendNotShort(t: seq<Event>, e: Event)
    requires NoShortRead(t)
    ensures ShortOnlyAtEnd(t + [e])
    ensures !ShortRead(e) ==> NoShortRead(t + [e])
  {
    assert forall i :: 0 <= i < |t| ==> (t + [e])[i] == t[i];
  }

  lemma AfterFailureNotShort(st: Loop, f: Failure, maxRetries: nat)
    requires st.tries <= maxRetries + 6 && NoShortRead(st.trace)
    ensures var next := AfterFailure(st, f, maxRetries);
            NoShortRead(next.st.trace) && StopsOnShort(next)
  {
    match Decide(f, st.tries, maxRetries)
    case GiveUp(_) =>
    case Backoff(delay, _) =>
      if delay > 0 {
        AppendNotShort(st.trace, Sleep(delay));
      }
  }

  lemma ReadSubChunkStopsOnShort(st: Loop, sub: SubRead, reader: nat -> Outcome, maxRetries: nat)
    requires st.tries <= maxRetries + 6 && 0 < sub.size <= st.left
    requires NoShortRead(st.trace)
    ensures StopsOnShort(ReadSubChunk(st, sub, reader, maxRetries))
  {
    var o := reader(st.calls);
    var e := Read(sub.chunkIndex, sub.offsetInChunk, sub.size, o);
    AppendNotShort(st.trace, e);
    if o.Failed? {
      var called := st.(calls := st.calls + 1, trace := st.trace + [e]);
      assert ReadSubChunk(st, sub, reader, maxRetries) == AfterFailure(called, o.failure, maxRetries);
      AfterFailureNotShort(called, o.failure, maxRetries);
    }
  }

  /** One pass stops at a short data read, with status 0, and makes no short
      read when it goes on. */
  lemma StepStopsOnShort(st: Loop, inode: nat, reader: nat -> Outcome, maxRetries: nat)
    requires st.left > 0 && st.tries <= maxRetries + 6
    requires NoShortRead(st.trace)
    ensures StopsOnShort(Step(st, inode, reader, maxRetries))
  {
    var sub := NextSubRead(st.offset, st.left);
    if st.force || st.preparedInode != inode || st.preparedChunk != sub.chunkIndex {
      var o := reader(st.calls);
      var e := Prepare(inode, sub.chunkIndex, o);
      AppendNotShort(st.trace, e);
      var called := st.(calls := st.calls + 1, trace := st.trace + [e]);
      if o.Failed? {
        assert Step(st, inode, reader, maxRetries) == AfterFailure(called, o.failure, maxRetries);
        AfterFailureNotShort(called, o.failure, maxRetries);
      } else {
        var ready := called.(preparedChunk := sub.chunkIndex, preparedInode := inode,
                             force := false, refreshed := true);
        assert Step(st, inode, reader, maxRetries) == ReadSubChunk(ready, sub, reader, maxRetries);
        ReadSubChunkStopsOnShort(ready, sub, reader, maxRetries);
      }
    } else {
      assert Step(st, inode, reader, maxRetries) == ReadSubChunk(st, sub, reader, maxRetries);
      ReadSubChunkStopsOnShort(st, sub, reader, maxRetries);
    }
  }

  /** Over the whole loop, a short data read is end of file: it can only be
      the last call of the run, and a run that ends on one returns status 0
      with bytes still unread. */
  lemma {:induction false} RunStopsOnShort(st: Loop, inode: nat, reader: nat -> Outcome, maxRetries: nat)
    requires st.tries <= maxRetries + 6 && NoShortRead(st.trace)
    ensures var f := Run(st, inode, reader, maxRetries);
            ShortOnlyAtEnd(f.st.trace) &&
            (EndsShort(f.st.trace) ==> f.status == 0 && f.st.left > 0)
    decreases st.left, maxRetries + 6 - st.tries
  {
    if st.left > 0 {
      StepStopsOnShort(st, inode, reader, maxRetries);
      var next := Step(st, inode, reader, maxRetries);
      if next.Continue? {
        RunStopsOnShort(next.st, inode, reader, maxRetries);
      }
    }
  }

  // ---------------------------------------------------------------------
  // Every data read comes right after a successful preparation of its chunk

  /** The loop must prepare before its next data read. */
  predicate NeedsPrepare(st: Loop, inode: nat) {
    st.force || st.preparedInode != inode || st.preparedChunk != st.offset / MFSCHUNKSIZE
  }

  /** Each data read of `t` is immediately preceded by a successful
      preparation of the same chunk. */
  predicate ReadsFreshlyPrepared(t: seq<Event>) {
    forall i :: 0 <= i < |t| && t[i].Read? ==>
      0 < i && t[i - 1].Prepare? && t[i - 1].outcome.Ok? && t[i - 1].chunkIndex == t[i].chunkIndex
  }

  lemma AppendPrepared(t: seq<Event>, e: Event)
    requires ReadsFreshlyPrepared(t)
    requires e.Read? ==> |t| > 0 && t[|t| - 1].Prepare? && t[|t| - 1].outcome.Ok? && t[|t| - 1].chunkIndex == e.chunkIndex
    ensures ReadsFreshlyPrepared(t + [e])
  {
  }

  lemma AfterFailurePrepared(st: Loop, f: Failure, maxRetries: nat, inode: nat)
    requires st.tries <= maxRetries + 6 && ReadsFreshlyPrepared(st.trace)
    ensures var next := AfterFailure(st, f, maxRetries);
            ReadsFreshlyPrepared(next.st.trace) && (next.Continue? ==> NeedsPrepare(next.st, inode))
  {
    match Decide(f, st.tries, maxRetries)
    case GiveUp(_) =>
    case Backoff(delay, _) =>
      if delay > 0 {
        AppendPrepared(st.trace, Sleep(delay));
      }
  }

  lemma StepPrepares(st: Loop, inode: nat, reader: nat -> Outcome, maxRetries: nat)
    requires st.left > 0 && st.tries <= maxRetries + 6
    requires NeedsPrepare(st, inode) && ReadsFreshlyPrepared(st.trace)
    ensures var next := Step(st, inode, reader, maxRetries);
            ReadsFreshlyPrepared(next.st.trace) &&
            (next.Continue? && next.st.left > 0 ==> NeedsPrepare(next.st, inode))
  {
    var sub := NextSubRead(st.offset, st.left);
    var o := reader(st.calls);
    var e := Prepare(inode, sub.chunkIndex, o);
    AppendPrepared(st.trace, e);
    var called := st.(calls := st.calls + 1, trace := st.trace + [e]);
    if o.Failed? {
      assert Step(st, inode, reader, maxRetries) == AfterFailure(called, o.failure, maxRetries);
      AfterFailurePrepared(called, o.failure, maxRetries, inode);
    } else {
      var ready := called.(preparedChunk := sub.chunkIndex, preparedInode := inode,
                           force := false, refreshed := true);
      assert Step(st, inode, reader, maxRetries) == ReadSubChunk(ready, sub, reader, maxRetries);
      PreparedReadPrepares(ready, sub, inode, reader, maxRetries);
    }
  }

  /** The data read that follows a successful preparation keeps every read
      prepared, and leaves the loop needing a new preparation. */
  lemma PreparedReadPrepares(st: Loop, sub: SubRead, inode: nat, reader: nat -> Outcome, maxRetries: nat)
    requires st.left > 0 && st.tries <= maxRetries + 6
    requires sub == NextSubRead(st.offset, st.left)
    requires ReadsFreshlyPrepared(st.trace)
    requires |st.trace| > 0 && st.trace[|st.trace| - 1].Prepare? && st.trace[|st.trace| - 1].outcome.Ok?
    requires st.trace[|st.trace| - 1].chunkIndex == sub.chunkIndex == st.preparedChunk
    ensures var next := ReadSubChunk(st, sub, reader, maxRetries);
            ReadsFreshlyPrepared(next.st.trace) &&
            (next.Continue? && next.st.left > 0 ==> NeedsPrepare(next.st, inode))
  {
    var o := reader(st.calls);
    var e := Read(sub.chunkIndex, sub.offsetInChunk, sub.size, o);
    AppendPrepared(st.trace, e);
    if o.Failed? {
      var called := st.(calls := st.calls + 1, trace := st.trace + [e]);
      assert ReadSubChunk(st, sub, reader, maxRetries) == AfterFailure(called, o.failure, maxRetries);
      AfterFailurePrepared(called, o.failure, maxRetries, inode);
    } else {
      var got := Served(o.n, sub.size);
      var advanced := Advanced(st, sub, o, got);
      if got < sub.size {
        assert ReadSubChunk(st, sub, reader, maxRetries) == Finish(advanced, 0);
      } else {
        assert ReadSubChunk(st, sub, reader, maxRetries) == Continue(advanced.(tries := 0));
        if sub.size < st.left {
          FullSubReadMovesToNextChunk(st.offset, st.left);
        }
      }
    }
  }

  /** When the loop starts out needing a preparation, every data read it makes
      comes right after a successful preparation of the same chunk: within one
      request the cached (inode, chunk) pair never spares a preparation, since
      a full sub-read always moves on to the next chunk and a failure forces
      the next preparation. */
  lemma {:induction false} RunPreparesEveryRead(st: Loop, inode: nat, reader: nat -> Outcome, maxRetries: nat)
    requires st.tries <= maxRetries + 6
    requires st.left > 0 ==> NeedsPrepare(st, inode)
    requires ReadsFreshlyPrepared(st.trace)
    ensures ReadsFreshlyPrepared(Run(st, inode, reader, maxRetries).st.trace)
    decreases st.left, maxRetries + 6 - st.tries
  {
    if st.left > 0 {
      StepPrepares(st, inode, reader, maxRetries);
      var next := Step(st, inode, reader, maxRetries);
      if next.Continue? {
        RunPreparesEveryRead(next.st, inode, reader, maxRetries);
      }
    }
  }

  // ---------------------------------------------------------------------
  // Why a read fails

  /** The trace ends on a reader call that failed, and the retry policy,
      consulted with the try counter at `tries`, gave up on that failure with
      `status`. */
  predicate GaveUpOn(t: seq<Event>, tries: nat, maxRetries: nat, status: nat) {
    |t| > 0 && !t[|t| - 1].Sleep? && t[|t| - 1].outcome.Failed? &&
    Decide(t[|t| - 1].outcome.failure, tries, maxRetries) == GiveUp(status)
  }

  lemma ReadSubChunkGivesUp(st: Loop, sub: SubRead, reader: nat -> Outcome, maxRetries: nat)
    requires st.tries <= maxRetries + 6 && 0 < sub.size <= st.left
    ensures var next := ReadSubChunk(st, sub, reader, maxRetries);
            next.Finish? && next.status != 0 ==> GaveUpOn(next.st.trace, next.st.tries, maxRetries, next.status)
  {
    var o := reader(st.calls);
    if o.Failed? {
      var called := st.(calls := st.calls + 1,
                        trace := st.trace + [Read(sub.chunkIndex, sub.offsetInChunk, sub.size, o)]);
      assert ReadSubChunk(st, sub, reader, maxRetries) == AfterFailure(called, o.failure, maxRetries);
    }
  }

  lemma StepGivesUp(st: Loop, inode: nat, reader: nat -> Outcome, maxRetries: nat)
    requires st.left > 0 && st.tries <= maxRetries + 6
    ensures var next := Step(st, inode, reader, maxRetries);
            next.Finish? && next.status != 0 ==> GaveUpOn(next.st.trace, next.st.tries, maxRetries, next.status)
  {
    var sub := NextSubRead(st.offset, st.left);
    if st.force || st.preparedInode != inode || st.preparedChunk != sub.chunkIndex {
      var o := reader(st.calls);
      var called := st.(calls := st.calls + 1, trace := st.trace + [Prepare(inode, sub.chunkIndex, o)]);
      if o.Failed? {
        assert Step(st, inode, reader, maxRetries) == AfterFailure(called, o.failure, maxRetries);
      } else {
        var ready := called.(preparedChunk := sub.chunkIndex, preparedInode := inode,
                             force := false, refreshed := true);
        assert Step(st, inode, reader, maxRetries) == ReadSubChunk(ready, sub, reader, maxRetries);
        ReadSubChunkGivesUp(ready, sub, reader, maxRetries);
      }
    } else {
      assert Step(st, inode, reader, maxRetries) == ReadSubChunk(st, sub, reader, maxRetries);
      ReadSubChunkGivesUp(st, sub, reader, maxRetries);
    }
  }

  /** A loop that ends with a nonzero status ended on a failed reader call
      that the retry policy gave up on: an unrecoverable failure, or a
      retryable one met after the try counter passed `maxRetries`. */
  lemma {:induction false} RunGivesUp(st: Loop, inode: nat, reader: nat -> Outcome, maxRetries: nat)
    requires st.tries <= maxRetries + 6
    ensures var f := Run(st, inode, reader, maxRetries);
            f.status != 0 ==> GaveUpOn(f.st.trace, f.st.tries, maxRetries, f.status)
    decreases st.left, maxRetries + 6 - st.tries
  {
    if st.left > 0 {
      StepGivesUp(st, inode, reader, maxRetries);
      var next := Step(st, inode, reader, maxRetries);
      if next.Continue? {
        RunGivesUp(next.st, inode, reader, maxRetries);
      }
    }
  }

  // ---------------------------------------------------------------------
  // Delays

  lemma AppendTotals(t: seq<Event>, e: Event)
    ensures TotalDelay(t + [e]) == TotalDelay(t) + Slept(e)
    ensures BytesDelivered(t + [e]) == BytesDelivered(t) + Got(e)
  {
    var u := t + [e];
    assert u[..|u| - 1] == t;
  }

  lemma AfterFailureDelay(st: Loop, f: Failure, maxRetries: nat)
    requires st.tries <= maxRetries + 6
    ensures var next := AfterFailure(st, f, maxRetries);
            next.st.calls == st.calls &&
            (next.Continue? ==>
               next.st.tries == Decide(f, st.tries, maxRetries).tries &&
               TotalDelay(next.st.trace) == TotalDelay(st.trace) + Decide(f, st.tries, maxRetries).delay)
  {
    match Decide(f, st.tries, maxRetries)
    case GiveUp(_) =>
    case Backoff(delay, _) =>
      if delay > 0 {
        AppendTotals(st.trace, Sleep(delay));
      }
  }

  /** The wait the retry policy imposes on a failure that recurs on every
      call, from try counter `tries` until it gives up. */
  function PersistentWait(f: Failure, tries: nat, maxRetries: nat): nat
    requires tries <= maxRetries + 6
    decreases maxRetries + 6 - tries
  {
    match Decide(f, tries, maxRetries)
    case GiveUp(_) => 0
    case Backoff(delay, next) => delay + PersistentWait(f, next, maxRetries)
  }

  /** A chunk with no valid copy is waited for one second, then sixty
      seconds for every six tries up to `maxRetries`: about ten seconds per
      allowed retry. */
  lemma NoValidCopiesWait(maxRetries: nat)
    ensures PersistentWait(NoValidCopies, 0, maxRetries) ==
              1 + (if maxRetries == 0 then 0 else 60 * ((maxRetries - 1) / 6 + 1))
  {
    if maxRetries > 0 {
      LongWaits(1, maxRetries);
    }
  }

  lemma {:induction false} LongWaits(tries: nat, maxRetries: nat)
    requires 0 < tries <= maxRetries
    ensures PersistentWait(NoValidCopies, tries, maxRetries) == 60 * ((maxRetries - tries) / 6 + 1)
    decreases maxRetries - tries
  {
    if tries + 6 <= maxRetries {
      LongWaits(tries + 6, maxRetries);
      assert (maxRetries - tries) / 6 == (maxRetries - (tries + 6)) / 6 + 1;
    } else {
      assert (maxRetries - tries) / 6 == 0;
    }
  }

  /** A recoverable failure that recurs is retried `maxRetries + 1` times
      with the growing waits of the policy. */
  lemma {:induction false} RecoverableWait(tries: nat, maxRetries: nat)
    requires tries <= maxRetries + 1
    ensures PersistentWait(Recoverable, tries, maxRetries) == RecoverableBackoff(tries, maxRetries + 1)
    decreases maxRetries + 1 - tries
  {
    if tries <= maxRetries {
      RecoverableWait(tries + 1, maxRetries);
    }
  }

  // ---------------------------------------------------------------------
  // A failure that recurs on every call

  /** Every reader call from the `from`-th on fails with `f`. */
  ghost predicate FailsFrom(reader: nat -> Outcome, from: nat, f: Failure) {
    forall j :: from <= j ==> reader(j) == Failed(f)
  }

  /** A pass whose first reader call fails makes that one call and hands the
      failure to the retry policy. */
  lemma StepFailing(st: Loop, inode: nat, reader: nat -> Outcome, maxRetries: nat, f: Failure)
    requires st.left > 0 && st.tries <= maxRetries + 6
    requires reader(st.calls) == Failed(f)
    ensures var next := Step(st, inode, reader, maxRetries);
            var d := Decide(f, st.tries, maxRetries);
            next.st.calls == st.calls + 1 && next.st.left == st.left && next.st.bytesRead == st.bytesRead &&
            (next.Finish? <==> d.GiveUp?) &&
            (next.Finish? ==> next.status == d.errno) &&
            (next.Continue? ==>
               next.st.tries == d.tries && TotalDelay(next.st.trace) == TotalDelay(st.trace) + d.delay)
  {
    var sub := NextSubRead(st.offset, st.left);
    var o := reader(st.calls);
    var e := if st.force || st.preparedInode != inode || st.preparedChunk != sub.chunkIndex
             then Prepare(inode, sub.chunkIndex, o)
             else Read(sub.chunkIndex, sub.offsetInChunk, sub.size, o);
    var called := st.(calls := st.calls + 1, trace := st.trace + [e]);
    if e.Read? {
      assert Step(st, inode, reader, maxRetries) == ReadSubChunk(st, sub, reader, maxRetries);
    }
    assert Step(st, inode, reader, maxRetries) == AfterFailure(called, f, maxRetries);
    AppendTotals(st.trace, e);
    AfterFailureDelay(called, f, maxRetries);
  }

  /** When every call fails the same way, the request ends with nothing
      read: a missing object as a stale handle, anything else as an I/O
      error, after the waits the policy prescribes. */
  lemma {:induction false} RunFailing(st: Loop, inode: nat, reader: nat -> Outcome, maxRetries: nat, f: Failure)
    requires st.left > 0 && st.tries <= maxRetries + 6
    requires FailsFrom(reader, st.calls, f)
    ensures var fin := Run(st, inode, reader, maxRetries);
            fin.status == (if f == Unrecoverable(ERROR_ENOENT) then EBADF else EIO) &&
            fin.st.bytesRead == st.bytesRead && fin.st.left == st.left &&
            TotalDelay(fin.st.trace) == TotalDelay(st.trace) + PersistentWait(f, st.tries, maxRetries)
    decreases maxRetries + 6 - st.tries
  {
    StepFailing(st, inode, reader, maxRetries, f);
    var next := Step(st, inode, reader, maxRetries);
    if next.Continue? {
      RunFailing(next.st, inode, reader, maxRetries, f);
    }
  }

  // ---------------------------------------------------------------------
  // A reader that always serves

  /** Every reader call from the `from`-th on succeeds, and every data read
      gets at least a whole chunk's worth of bytes back. */
  ghost predicate ServesFrom(reader: nat -> Outcome, from: nat) {
    forall j :: from <= j ==> reader(j).Ok? && reader(j).n >= MFSCHUNKSIZE
  }

  lemma ServedSubChunk(st: Loop, sub: SubRead, reader: nat -> Outcome, maxRetries: nat)
    requires st.tries <= maxRetries + 6 && 0 < sub.size <= st.left
    requires sub.size <= MFSCHUNKSIZE && ServesFrom(reader, st.calls)
    ensures var next := ReadSubChunk(st, sub, reader, maxRetries);
            next.Continue? && next.st.tries == 0 && next.st.calls == st.calls + 1 &&
            next.st.left == st.left - sub.size && next.st.bytesRead == st.bytesRead + sub.size &&
            TotalDelay(next.st.trace) == TotalDelay(st.trace)
  {
    var o := reader(st.calls);
    AppendTotals(st.trace, Read(sub.chunkIndex, sub.offsetInChunk, sub.size, o));
    assert ReadSubChunk(st, sub, reader, maxRetries) == Continue(Advanced(st, sub, o, sub.size).(tries := 0));
  }

  /** With a reader that always serves, a pass reads its whole sub-read
      without waiting and resets the try counter. */
  lemma StepServed(st: Loop, inode: nat, reader: nat -> Outcome, maxRetries: nat)
    requires st.left > 0 && st.tries <= maxRetries + 6
    requires ServesFrom(reader, st.calls)
    ensures var next := Step(st, inode, reader, maxRetries);
            var sub := NextSubRead(st.offset, st.left);
            next.Continue? && next.st.tries == 0 && next.st.calls > st.calls &&
            next.st.left == st.left - sub.size && next.st.bytesRead == st.bytesRead + sub.size &&
            TotalDelay(next.st.trace) == TotalDelay(st.trace)
  {
    var sub := NextSubRead(st.offset, st.left);
    if st.force || st.preparedInode != inode || st.preparedChunk != sub.chunkIndex {
      var o := reader(st.calls);
      var e := Prepare(inode, sub.chunkIndex, o);
      var ready := st.(calls := st.calls + 1, trace := st.trace + [e],
                       preparedChunk := sub.chunkIndex, preparedInode := inode,
                       force := false, refreshed := true);
      assert Step(st, inode, reader, maxRetries) == ReadSubChunk(ready, sub, reader, maxRetries);
      AppendTotals(st.trace, e);
      ServedSubChunk(ready, sub, reader, maxRetries);
    } else {
      assert Step(st, inode, reader, maxRetries) == ReadSubChunk(st, sub, reader, maxRetries);
      ServedSubChunk(st, sub, reader, maxRetries);
    }
  }

  /** With a reader that always serves, the loop reads everything that is
      left, succeeds and never waits. */
  lemma {:induction false} RunServed(st: Loop, inode: nat, reader: nat -> Outcome, maxRetries: nat)
    requires st.tries <= maxRetries + 6
    requires ServesFrom(reader, st.calls)
    ensures var fin := Run(st, inode, reader, maxRetries);
            fin.status == 0 && fin.st.left == 0 && fin.st.bytesRead == st.bytesRead + st.left &&
            TotalDelay(fin.st.trace) == TotalDelay(st.trace)
    decreases st.left
  {
    if st.left > 0 {
      StepServed(st, inode, reader, maxRetries);
      var next := Step(st, inode, reader, maxRetries);
      RunServed(next.st, inode, reader, maxRetries);
    }
  }

  // ---------------------------------------------------------------------
  // Transient failures followed by service

  /** The reader calls numbered `from` up to `k` fail recoverably, and the
      reader always serves from call `k` on. */
  ghost predicate FailsRecoverablyUntil(reader: nat -> Outcome, from: nat, k: nat) {
    (forall j :: from <= j < k ==> reader(j) == Failed(Recoverable)) && ServesFrom(reader, k)
  }

  /** A pass that does not finish hands its state to the rest of the loop. */
  lemma RunUnfolds(st: Loop, inode: nat, reader: nat -> Outcome, maxRetries: nat)
    requires st.left > 0 && st.tries <= maxRetries + 6
    requires Step(st, inode, reader, maxRetries).Continue?
    ensures Run(st, inode, reader, maxRetries) ==
            Run(Step(st, inode, reader, maxRetries).st, inode, reader, maxRetries)
  {
  }

  /** A recoverable failure within the retry limit costs one call, one try
      and the policy's delay, and leaves the rest of the request to the loop. */
  lemma RecoverStep(st: Loop, inode: nat, reader: nat -> Outcome, hi: nat, maxRetries: nat)
    requires st.left > 0 && st.tries < hi <= maxRetries + 1
    requires reader(st.calls) == Failed(Recoverable)
    requires var next := Step(st, inode, reader, maxRetries);
             next.Continue? ==>
               var fin := Run(next.st, inode, reader, maxRetries);
               fin.status == 0 && fin.st.left == 0 && fin.st.bytesRead == next.st.bytesRead + next.st.left &&
               TotalDelay(fin.st.trace) == TotalDelay(next.st.trace) + RecoverableBackoff(next.st.tries, hi)
    ensures var fin := Run(st, inode, reader, maxRetries);
            fin.status == 0 && fin.st.left == 0 && fin.st.bytesRead == st.bytesRead + st.left &&
            TotalDelay(fin.st.trace) == TotalDelay(st.trace) + RecoverableBackoff(st.tries, hi)
  {
    StepFailing(st, inode, reader, maxRetries, Recoverable);
    RunUnfolds(st, inode, reader, maxRetries);
    var next := Step(st, inode, reader, maxRetries);
    var fin := Run(next.st, inode, reader, maxRetries);
    BackoffAccumulates(TotalDelay(st.trace), TotalDelay(next.st.trace), TotalDelay(fin.st.trace), st.tries, hi);
  }

  /** Recoverable failures up to the retry limit only delay the read: it
      completes, having waited the policy's growing delays for each failure. */
  lemma {:induction false} RunRecovers(st: Loop, inode: nat, reader: nat -> Outcome, k: nat, hi: nat, maxRetries: nat)
    requires st.left > 0 && st.calls <= k && hi == st.tries + (k - st.calls) <= maxRetries + 1
    requires FailsRecoverablyUntil(reader, st.calls, k)
    ensures var fin := Run(st, inode, reader, maxRetries);
            fin.status == 0 && fin.st.left == 0 && fin.st.bytesRead == st.bytesRead + st.left &&
            TotalDelay(fin.st.trace) == TotalDelay(st.trace) + RecoverableBackoff(st.tries, hi)
    decreases k - st.calls
  {
    if st.calls == k {
      RunServed(st, inode, reader, maxRetries);
    } else {
      var next := Step(st, inode, reader, maxRetries);
      StepFailing(st, inode, reader, maxRetries, Recoverable);
      RunRecovers(next.st, inode, reader, k, hi, maxRetries);
      RecoverStep(st, inode, reader, hi, maxRetries);
    }
  }
  // ---------------------------------------------------------------------
  // Successful preparations and the staleness counter

  /** Some preparation in `t` succeeded. */
  predicate PreparedOnce(t: seq<Event>) {
    t != [] &&
    (PreparedOnce(t[..|t| - 1]) || (t[|t| - 1].Prepare? && t[|t| - 1].outcome.Ok?))
  }

  lemma AppendPreparedOnce(t: seq<Event>, e: Event)
    ensures PreparedOnce(t + [e]) <==> PreparedOnce(t) || (e.Prepare? && e.outcome.Ok?)
  {
    var u := t + [e];
    assert u[..|u| - 1] == t;
  }

  /** The loop's `refreshed` flag says whether its trace holds a successful
      preparation. */
  predicate RefreshTracked(st: Loop) {
    st.refreshed == PreparedOnce(st.trace)
  }

  lemma AfterFailureTracks(st: Loop, f: Failure, maxRetries: nat)
    requires st.tries <= maxRetries + 6 && RefreshTracked(st)
    ensures RefreshTracked(AfterFailure(st, f, maxRetries).st)
  {
    match Decide(f, st.tries, maxRetries)
    case GiveUp(_) =>
    case Backoff(delay, _) =>
      if delay > 0 {
        AppendPreparedOnce(st.trace, Sleep(delay));
      }
  }

  lemma ReadSubChunkTracks(st: Loop, sub: SubRead, reader: nat -> Outcome, maxRetries: nat)
    requires st.tries <= maxRetries + 6 && 0 < sub.size <= st.left && RefreshTracked(st)
    ensures RefreshTracked(ReadSubChunk(st, sub, reader, maxRetries).st)
  {
    var o := reader(st.calls);
    var e := Read(sub.chunkIndex, sub.offsetInChunk, sub.size, o);
    AppendPreparedOnce(st.trace, e);
    if o.Failed? {
      var called := st.(calls := st.calls + 1, trace := st.trace + [e]);
      assert ReadSubChunk(st, sub, reader, maxRetries) == AfterFailure(called, o.failure, maxRetries);
      AfterFailureTracks(called, o.failure, maxRetries);
    }
  }

  lemma StepTracks(st: Loop, inode: nat, reader: nat -> Outcome, maxRetries: nat)
    requires st.left > 0 && st.tries <= maxRetries + 6 && RefreshTracked(st)
    ensures RefreshTracked(Step(st, inode, reader, maxRetries).st)
  {
    var sub := NextSubRead(st.offset, st.left);
    if st.force || st.preparedInode != inode || st.preparedChunk != sub.chunkIndex {
      var o := reader(st.calls);
      var e := Prepare(inode, sub.chunkIndex, o);
      var called := st.(calls := st.calls + 1, trace := st.trace + [e]);
      AppendPreparedOnce(st.trace, e);
      if o.Failed? {
        assert Step(st, inode, reader, maxRetries) == AfterFailure(called, o.failure, maxRetries);
        AfterFailureTracks(called, o.failure, maxRetries);
      } else {
        var ready := called.(preparedChunk := sub.chunkIndex, preparedInode := inode,
                             force := false, refreshed := true);
        assert Step(st, inode, reader, maxRetries) == ReadSubChunk(ready, sub, reader, maxRetries);
        ReadSubChunkTracks(ready, sub, reader, maxRetries);
      }
    } else {
      assert Step(st, inode, reader, maxRetries) == ReadSubChunk(st, sub, reader, maxRetries);
      ReadSubChunkTracks(st, sub, reader, maxRetries);
    }
  }

  /** The loop ends having refreshed the chunk locations exactly when one of
      its preparations succeeded. */
  lemma {:induction false} RunTracksRefresh(st: Loop, inode: nat, reader: nat -> Outcome, maxRetries: nat)
    requires st.tries <= maxRetries + 6 && RefreshTracked(st)
    ensures RefreshTracked(Run(st, inode, reader, maxRetries).st)
    decreases st.left, maxRetries + 6 - st.tries
  {
    if st.left > 0 {
      StepTracks(st, inode, reader, maxRetries);
      var next := Step(st, inode, reader, maxRetries);
      if next.Continue? {
        RunTracksRefresh(next.st, inode, reader, maxRetries);
      }
    }
  }

  /** A pass that must prepare starts with the preparation of the chunk the
      loop stands in. */
  lemma StepOpensWithPrepare(st: Loop, inode: nat, reader: nat -> Outcome, maxRetries: nat)
    requires st.left > 0 && st.tries <= maxRetries + 6
    ensures var t := Step(st, inode, reader, maxRetries).st.trace;
            |t| > |st.trace| &&
            (t[|st.trace|].Prepare? <==> NeedsPrepare(st, inode)) &&
            (NeedsPrepare(st, inode) ==> t[|st.trace|] == Prepare(inode, st.offset / MFSCHUNKSIZE, reader(st.calls)))
  {
    var sub := NextSubRead(st.offset, st.left);
    if !NeedsPrepare(st, inode) {
      assert Step(st, inode, reader, maxRetries) == ReadSubChunk(st, sub, reader, maxRetries);
      return;
    }
    var o := reader(st.calls);
    var called := st.(calls := st.calls + 1, trace := st.trace + [Prepare(inode, sub.chunkIndex, o)]);
    if o.Ok? {
      var ready := called.(preparedChunk := sub.chunkIndex, preparedInode := inode,
                           force := false, refreshed := true);
      assert Step(st, inode, reader, maxRetries) == ReadSubChunk(ready, sub, reader, maxRetries);
    } else {
      assert Step(st, inode, reader, maxRetries) == AfterFailure(called, o.failure, maxRetries);
    }
  }

  // ---------------------------------------------------------------------
  // read_data as a whole

  /** The loop read_data starts for a nonempty request satisfies the loop
      invariants. */
  lemma StartAccounted(offset: nat, size: nat, force: bool)
    ensures Accounted(Start(offset, size, force), offset)
    ensures RefreshTracked(Start(offset, size, force))
    ensures ReadsFreshlyPrepared(Start(offset, size, force).trace)
  {
  }

  /** Every sub-read of a request stays inside one chunk, asks for at least
      one byte, and starts where the previous successful ones ended, from
      the request's offset; the buffer holds exactly the bytes delivered, no
      more than asked; a successful read that returned less than asked ended
      on a short sub-read. */
  lemma ReadAccounts(r: ReadRec, offset: nat, size: uint32, reader: nat -> Outcome, maxRetries: nat)
    requires !r.locked
    requires offset % MFSBLOCKSIZE == 0 && size % MFSBLOCKSIZE == 0
    ensures var res := ReadOutcome(r, offset, size, reader, maxRetries);
            TraceInOrder(res.trace, offset) &&
            (size > 0 ==> res.rec.bufferLen == BytesDelivered(res.trace) <= size) &&
            (res.status == 0 ==> res.size == BytesDelivered(res.trace)) &&
            (res.status == 0 && res.size < size ==> EndsShort(res.trace))
  {
    if size > 0 {
      var force := r.refreshCounter == REFRESHTICKS;
      StartAccounted(offset, size, force);
      RunAccounted(Start(offset, size, force), r.inode, reader, maxRetries, offset);
    }
  }

  /** read_data treats a short data read as end of file: it can only be the
      last reader call, and a read that ends on one succeeds with fewer bytes
      than asked. So a successful read is short exactly when it ended on a
      short sub-read. */
  lemma ReadStopsOnShort(r: ReadRec, offset: nat, size: uint32, reader: nat -> Outcome, maxRetries: nat)
    requires !r.locked
    requires offset % MFSBLOCKSIZE == 0 && size % MFSBLOCKSIZE == 0
    ensures var res := ReadOutcome(r, offset, size, reader, maxRetries);
            ShortOnlyAtEnd(res.trace) &&
            (EndsShort(res.trace) ==> res.status == 0) &&
            (res.status == 0 ==> (res.size < size <==> EndsShort(res.trace)))
  {
    if size > 0 {
      var force := r.refreshCounter == REFRESHTICKS;
      StartAccounted(offset, size, force);
      RunAccounted(Start(offset, size, force), r.inode, reader, maxRetries, offset);
      RunStopsOnShort(Start(offset, size, force), r.inode, reader, maxRetries);
    }
  }

  /** A read fails only on a reader call the policy gave up on, at the try
      counter the loop had reached; its status is then a stale handle exactly
      when that call found the object missing, and an I/O error otherwise. */
  lemma ReadFailureExplained(r: ReadRec, offset: nat, size: uint32, reader: nat -> Outcome, maxRetries: nat)
    requires !r.locked
    requires offset % MFSBLOCKSIZE == 0 && size % MFSBLOCKSIZE == 0
    ensures var res := ReadOutcome(r, offset, size, reader, maxRetries);
            (res.status == 0 || res.status == EIO || res.status == EBADF) &&
            (res.status != 0 ==>
               size > 0 &&
               var fin := Run(Start(offset, size, r.refreshCounter == REFRESHTICKS), r.inode, reader, maxRetries);
               fin.st.trace == res.trace && fin.st.tries <= maxRetries + 6 &&
               GaveUpOn(res.trace, fin.st.tries, maxRetries, res.status))
  {
    if size > 0 {
      var force := r.refreshCounter == REFRESHTICKS;
      var fin := Run(Start(offset, size, force), r.inode, reader, maxRetries);
      RunGivesUp(Start(offset, size, force), r.inode, reader, maxRetries);
      if fin.status != 0 {
        assert GaveUpOn(fin.st.trace, fin.st.tries, maxRetries, fin.status);
      }
    }
  }

  /** A nonempty read opens with a preparation exactly when the session is
      stale, or when its inode and the chunk holding `offset` differ from the
      loop's initial pair (inode 0, chunk 0); otherwise it opens with a data
      read of that chunk. */
  lemma ReadOpens(r: ReadRec, offset: nat, size: uint32, reader: nat -> Outcome, maxRetries: nat)
    requires !r.locked
    requires offset % MFSBLOCKSIZE == 0 && size % MFSBLOCKSIZE == 0
    requires size > 0
    ensures var res := ReadOutcome(r, offset, size, reader, maxRetries);
            |res.trace| > 0 &&
            (res.trace[0].Prepare? <==>
               r.refreshCounter == REFRESHTICKS || r.inode != 0 || offset / MFSCHUNKSIZE != 0) &&
            (res.trace[0].Read? <==> !res.trace[0].Prepare?)
  {
    var force := r.refreshCounter == REFRESHTICKS;
    var st := Start(offset, size, force);
    StepOpensWithPrepare(st, r.inode, reader, maxRetries);
    var next := Step(st, r.inode, reader, maxRetries);
    if next.Continue? {
      assert Run(st, r.inode, reader, maxRetries) == Run(next.st, r.inode, reader, maxRetries);
    }
  }

  /** A stale session (counter at its ceiling) and any session of a real
      inode begin a nonempty read by preparing the chunk holding `offset`;
      for a real inode every data read comes right after a successful
      preparation of its chunk. */
  lemma ReadPreparesFirst(r: ReadRec, offset: nat, size: uint32, reader: nat -> Outcome, maxRetries: nat)
    requires !r.locked
    requires offset % MFSBLOCKSIZE == 0 && size % MFSBLOCKSIZE == 0
    requires size > 0 && (r.refreshCounter == REFRESHTICKS || r.inode != 0)
    ensures var res := ReadOutcome(r, offset, size, reader, maxRetries);
            |res.trace| > 0 && res.trace[0] == Prepare(r.inode, offset / MFSCHUNKSIZE, reader(0)) &&
            (r.inode != 0 ==> ReadsFreshlyPrepared(res.trace))
  {
    var force := r.refreshCounter == REFRESHTICKS;
    var st := Start(offset, size, force);
    StepOpensWithPrepare(st, r.inode, reader, maxRetries);
    var next := Step(st, r.inode, reader, maxRetries);
    if next.Continue? {
      assert Run(st, r.inode, reader, maxRetries) == Run(next.st, r.inode, reader, maxRetries);
    }
    if r.inode != 0 {
      RunPreparesEveryRead(st, r.inode, reader, maxRetries);
    }
  }

  /** The staleness counter drops to zero exactly when some preparation of
      the read succeeded, and is otherwise as it was. */
  lemma ReadRefreshes(r: ReadRec, offset: nat, size: uint32, reader: nat -> Outcome, maxRetries: nat)
    requires !r.locked
    requires offset % MFSBLOCKSIZE == 0 && size % MFSBLOCKSIZE == 0
    ensures var res := ReadOutcome(r, offset, size, reader, maxRetries);
            res.rec.refreshCounter == if PreparedOnce(res.trace) then 0 else r.refreshCounter
  {
    if size > 0 {
      var force := r.refreshCounter == REFRESHTICKS;
      RunTracksRefresh(Start(offset, size, force), r.inode, reader, maxRetries);
    }
  }

  /** With a reader that always serves, a read returns all it asked for and
      never waits. */
  lemma ReadServed(r: ReadRec, offset: nat, size: uint32, reader: nat -> Outcome, maxRetries: nat)
    requires !r.locked
    requires offset % MFSBLOCKSIZE == 0 && size % MFSBLOCKSIZE == 0
    requires ServesFrom(reader, 0)
    ensures var res := ReadOutcome(r, offset, size, reader, maxRetries);
            res.status == 0 && res.size == size && TotalDelay(res.trace) == 0
  {
    if size > 0 {
      var force := r.refreshCounter == REFRESHTICKS;
      RunServed(Start(offset, size, force), r.inode, reader, maxRetries);
    }
  }

  /** When the first `k` reader calls fail recoverably and `k` is within the
      retry allowance, the read still returns everything, after waiting the
      policy's growing delays: at most eleven seconds per failure after the
      first. */
  lemma ReadRecovers(r: ReadRec, offset: nat, size: uint32, reader: nat -> Outcome, k: nat, maxRetries: nat)
    requires !r.locked
    requires offset % MFSBLOCKSIZE == 0 && size % MFSBLOCKSIZE == 0
    requires size > 0 && k <= maxRetries + 1
    requires FailsRecoverablyUntil(reader, 0, k)
    ensures var res := ReadOutcome(r, offset, size, reader, maxRetries);
            res.status == 0 && res.size == size &&
            TotalDelay(res.trace) == RecoverableBackoff(0, k) &&
            (k > 0 ==> TotalDelay(res.trace) <= 11 * (k - 1))
  {
    var force := r.refreshCounter == REFRESHTICKS;
    RunRecovers(Start(offset, size, force), r.inode, reader, k, k, maxRetries);
    RecoverableBackoffBound(0, k);
  }

  /** When every reader call fails the same way, the read returns the error
      the policy prescribes, with an empty buffer, after the policy's waits. */
  lemma ReadFailsPersistently(r: ReadRec, offset: nat, size: uint32, reader: nat -> Outcome, f: Failure,
                              maxRetries: nat)
    requires !r.locked
    requires offset % MFSBLOCKSIZE == 0 && size % MFSBLOCKSIZE == 0
    requires size > 0 && FailsFrom(reader, 0, f)
    ensures var res := ReadOutcome(r, offset, size, reader, maxRetries);
            res.status == (if f == Unrecoverable(ERROR_ENOENT) then EBADF else EIO) &&
            res.rec.bufferLen == 0 &&
            TotalDelay(res.trace) == PersistentWait(f, 0, maxRetries)
  {
    var force := r.refreshCounter == REFRESHTICKS;
    RunFailing(Start(offset, size, force), r.inode, reader, maxRetries, f);
  }

  // ---------------------------------------------------------------------
  // The loop as read_data runs it

  /** read_data on a session nobody holds, as the entry point runs it: lock
      the session and note whether it is stale; return at once for an empty
      request; otherwise empty the buffer, run the loop, and leave the bytes
      read in the buffer. */
  method ReadSession(r: ReadRec, offset: nat, size: uint32, reader: nat -> Outcome, maxRetries: nat)
    returns (res: ReadResult)
    requires !r.locked
    requires offset % MFSBLOCKSIZE == 0 && size % MFSBLOCKSIZE == 0
    ensures res == ReadOutcome(r, offset, size, reader, maxRetries)
  {
    var held := Acquire(r);
    var forcePrepare := held.refreshCounter == REFRESHTICKS;
    if size == 0 {
      return ReadResult(0, 0, [], held);
    }
    var status, bytesRead, trace, refreshed := ReadRange(held.inode, offset, size, forcePrepare, reader, maxRetries);
    var after := held.(refreshCounter := if refreshed then 0 else held.refreshCounter, bufferLen := bytesRead);
    res := ReadResult(status, if status == 0 then bytesRead else size, trace, after);
  }

  /** read_data's loop: it runs passes over the loop's local state until
      nothing is left to read or a pass ends the request, and returns the
      status, the bytes read, the reader calls and sleeps made, and whether a
      preparation succeeded, exactly as `Run` describes them. */
  method ReadRange(inode: nat, offset: nat, size: nat, forcePrepare: bool, reader: nat -> Outcome,
                   maxRetries: nat)
    returns (status: nat, bytesRead: nat, trace: seq<Event>, refreshed: bool)
    ensures var f := Run(Start(offset, size, forcePrepare), inode, reader, maxRetries);
            status == f.status && bytesRead == f.st.bytesRead && trace == f.st.trace &&
            refreshed == f.st.refreshed
  {
    ghost var goal := Run(Start(offset, size, forcePrepare), inode, reader, maxRetries);
    var st := Start(offset, size, forcePrepare);
    while st.left > 0
      invariant st.tries <= maxRetries + 6
      invariant Run(st, inode, reader, maxRetries) == goal
      decreases st.left, maxRetries + 6 - st.tries
    {
      var next := Pass(st, inode, reader, maxRetries);
      if next.Finish? {
        return next.status, next.st.bytesRead, next.st.trace, next.st.refreshed;
      }
      RunUnfolds(st, inode, reader, maxRetries);
      st := next.st;
    }
    return 0, st.bytesRead, st.trace, st.refreshed;
  }

  /** One pass of the loop body (the try block): prepare the chunk when
      forced or when the (inode, chunk) pair changed, read the sub-read, stop
      on a short read, and hand any failure to the catch clauses. */
  method Pass(st: Loop, inode: nat, reader: nat -> Outcome, maxRetries: nat) returns (next: Next)
    requires st.left > 0 && st.tries <= maxRetries + 6
    ensures next == Step(st, inode, reader, maxRetries)
  {
    var sub := NextSubRead(st.offset, st.left);
    var cur := st;
    if cur.force || cur.preparedInode != inode || cur.preparedChunk != sub.chunkIndex {
      var o := reader(cur.calls);
      cur := cur.(calls := cur.calls + 1, trace := cur.trace + [Prepare(inode, sub.chunkIndex, o)]);
      if o.Failed? {
        next := Recover(cur, o.failure, maxRetries);
        return;
      }
      cur := cur.(preparedChunk := sub.chunkIndex, preparedInode := inode, force := false, refreshed := true);
    }
    var o := reader(cur.calls);
    if o.Failed? {
      cur := cur.(calls := cur.calls + 1, trace := cur.trace + [Read(sub.chunkIndex, sub.offsetInChunk, sub.size, o)]);
      next := Recover(cur, o.failure, maxRetries);
      return;
    }
    var got := Served(o.n, sub.size);
    cur := Advanced(cur, sub, o, got);
    if got < sub.size {
      // end of file
      return Finish(cur, 0);
    }
    next := Continue(cur.(tries := 0));
  }

  /** The catch clauses: a retryable failure forces a new preparation; then
      the request fails, or the loop sleeps and advances the try counter. */
  method Recover(st: Loop, f: Failure, maxRetries: nat) returns (next: Next)
    requires st.tries <= maxRetries + 6
    ensures next == AfterFailure(st, f, maxRetries)
  {
    var cur := st;
    if !f.Unrecoverable? {
      cur := cur.(force := true);
    }
    match Decide(f, cur.tries, maxRetries)
    case GiveUp(errno) =>
      next := Finish(cur, errno);
    case Backoff(delay, tries) =>
      if delay > 0 {
        cur := cur.(trace := cur.trace + [Sleep(delay)]);
      }
      next := Continue(cur.(tries := tries));
  }
}
