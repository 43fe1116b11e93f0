# Read sessions and chunk reads of the mount client

This project models the read path of the filesystem client in
`src/mount/readdata.cc`, and proves properties of the model.

**Read sessions.** The mount opens a read session (`readrec`) per open file.
- The sessions are kept in a registry made of two parts:
  - a catalogue of all sessions, newest first;
  - a 1024-bucket index that maps an inode (by its low ten bits) to the sessions of that inode.
- A session carries:
  - its inode;
  - a staleness counter;
  - a validity flag;
  - a lock flag;
  - a count of callers waiting for the lock;
  - a read buffer.

**Entry points.**
- `read_data_new` creates a session.
- `read_data_end` closes it.
- `read_inode_ops` marks every session of an inode stale.
- `read_data` locks a session and reads a block-aligned byte range through the chunk reader.
- `read_data_freebuff` releases the session again.

**The read loop.** `read_data` cuts the byte range into sub-reads. Each sub-read stays inside one 64 MiB chunk.
- Before a data read, the loop prepares (locates) the chunk, but only when:
  - a preparation is forced, or
  - the chunk or the inode differs from the pair it last prepared.
- A short answer from the reader means end of file.
- The reader fails in three classes. The loop answers each by waiting and retrying, or by giving up with `EIO` or `EBADF`.

**The background sweep.** A thread sweeps the registry periodically. It ages every session's staleness counter, saturating at 15. It also reclaims closed sessions that nobody holds, unlinking them from the catalogue and from their bucket. A session whose counter reached 15 prepares again on its next read.

**Files.**
- `chunks.dfy`: block and chunk geometry, and how a request is cut into sub-reads.
- `retry_policy.dfy`: the failure classes, the retry decision, and the backoff delays.
- `session.dfy`: a session as a value, and the changes each entry point makes to its lock, validity and counter.
- `read_loop.dfy`:
  - the read loop as functions over its local state (`Step`, `Run`, `ReadOutcome`);
  - lemmas about whole runs;
  - the loop as read_data runs it, as methods proved equal to those functions (`ReadRange`, `Pass`, `Recover`, `ReadSession`).
- `registry.dfy`: the registry as a class.
  - Its fields: a catalogue sequence, an array of 1024 bucket sequences, a map from session handles to sessions, and the next handle.
  - Its methods, one per entry point: `New`, `End`, `ReadData`, `FreeBuff`, `InodeOps` and `Sweep`. Each keeps the registry invariant `Consistent`. The sweep and `read_inode_ops` walk their lists in loops.

**How sessions and the reader are modelled.**
- Sessions are identified by handles, which stand for the pointers of the source.
- The chunk reader is an oracle: a function from the number of the reader call to its outcome. An outcome is `Ok(n)` or one of the failure classes.
- Every call made, and every sleep, is recorded in a trace, which the lemmas reason about.

## Model

| member | source | states |
|---|---|---|
| Chunks.NextSubRead | src/mount/readdata.cc:236-252 | The sub-read at `offset` with `left` bytes to go starts exactly at `offset`. It stays inside one chunk and asks for no more than is left. It asks for all that is left or the rest of the chunk, and for at least one byte when anything is left. It keeps block alignment. |
| Chunks.FullSubReadMovesToNextChunk | src/mount/readdata.cc:247-263 | After a sub-read that was served in full but did not finish the request, the next sub-read starts at byte 0 of the following chunk. |
| RetryPolicy.RecoverableDelay | src/mount/readdata.cc:299-302 | The wait after a recoverable failure is zero only for try counter 0. Below 30 it is `1 + tries / 3`. From 30 on it is 11, which is never exceeded. |
| RetryPolicy.RecoverableDelayGrows | src/mount/readdata.cc:299-302 | The recoverable wait never shrinks as the try counter grows. |
| RetryPolicy.Decide | src/mount/readdata.cc:264-316 | The request is given up exactly on an unrecoverable failure or when the counter is past `maxRetries`. Giving up returns `EBADF` exactly for a missing object, and `EIO` otherwise. Otherwise a no-valid-copies failure waits 1 second and adds 1 on the first try, then waits 60 and adds 6. A recoverable failure waits the recoverable delay and adds 1. The counter never passes `maxRetries + 6`. |
| RetryPolicy.RecoverableBackoffBound | src/mount/readdata.cc:296-302 | Recoverable failures cost at most 11 seconds each, and the first one costs nothing. |
| Session.NewRec | src/mount/readdata.cc:69-79 | A new session is open, unlocked, has no waiters and an empty buffer, and its counter is below 15, so its first read does not force a preparation. |
| Session.FreshSessionAges | src/mount/readdata.cc:69-79 | A new session that is neither read nor closed stays open and free through any number of sweep ticks. Its counter reaches 15, which forces a preparation, exactly from the 15th tick on. |
| Session.Acquire | src/mount/readdata.cc:208-214 | Taking a free session sets its lock and leaves every other field as it was. In particular the waiting count returns to its old value. |
| Session.Ended | src/mount/readdata.cc:139-154 | Closing leaves the session invalid and unlocked, with every other field unchanged. |
| Session.Released | src/mount/readdata.cc:325-332 | Releasing clears the lock and changes nothing else. |
| Session.Aged | src/mount/readdata.cc:102-104 | One sweep tick adds one to the staleness counter while it is below 15, and otherwise leaves it. No other field changes. |
| Session.AgingSaturates | src/mount/readdata.cc:102-104 | After `n` ticks, a counter that started within bounds is `min(start + n, 15)`, so it never passes the ceiling. |
| ReadLoop.AfterFailure | src/mount/readdata.cc:264-316 | A failure moves neither the position nor the byte counts. If the loop goes on, the try counter has risen and a preparation is forced. If the loop stops, the status is the error the retry policy chose. |
| ReadLoop.ReadSubChunk | src/mount/readdata.cc:247-263 | One data read records the call as its next event and keeps bytes read plus bytes left constant. When the reader answers, position and bytes read advance by what was served. The loop stops exactly on a short answer, with status 0. A full answer goes on with the try counter reset to 0. A failure moves nothing, and the loop stops exactly when the retry policy gives up, with the policy's status. The try counter stays within `maxRetries + 6`. |
| ReadLoop.Step | src/mount/readdata.cc:234-317 | One pass keeps bytes read plus bytes left constant. A pass that continues either reads some bytes, or raises the try counter without reading. The try counter stays within `maxRetries + 6`. A pass that reads bytes and goes on resets the try counter to 0, so each chunk starts with the full retry budget. |
| ReadLoop.Run | src/mount/readdata.cc:234-318 | The loop ends on every input, and bytes read plus bytes left equals the request. The final try counter stays within `maxRetries + 6`. |
| ReadLoop.ReadOutcome | src/mount/readdata.cc:208-230 | After read_data the session is locked. Only its lock, staleness counter and buffer length differ, and the counter is either unchanged or zero. A request of size 0 returns at once with nothing else changed. A successful read returns at most the size asked. |
| ReadLoop.RunAccounted | src/mount/readdata.cc:234-263 | Over a whole run the following hold. Every sub-read stays in one chunk and asks for at least one byte. Successful sub-reads follow each other without gap or overlap. The bytes read are the bytes delivered. A successful run that read less than asked ended on a short sub-read. |
| ReadLoop.StepStopsOnShort | src/mount/readdata.cc:254-263 | From a trace with no short data read, a pass that goes on adds none. A pass that stops has a short read at most as its last call, and then it stops with status 0 and bytes still unread. |
| ReadLoop.RunStopsOnShort | src/mount/readdata.cc:234-263 | Over a whole run, a short data read can only be the last reader call. A run that ends on one returns status 0 with bytes still unread. |
| ReadLoop.RunPreparesEveryRead | src/mount/readdata.cc:232-245 | When the loop starts needing a preparation, every data read comes right after a successful preparation of its chunk. |
| ReadLoop.RunGivesUp | src/mount/readdata.cc:264-316 | A run that ends with an error ended on a failed reader call that the retry policy gave up on, with that status. |
| ReadLoop.RunTracksRefresh | src/mount/readdata.cc:237-244 | The loop's refresh flag is set exactly when one of its preparations succeeded. |
| ReadLoop.StepOpensWithPrepare | src/mount/readdata.cc:236-238 | A pass begins with a preparation exactly when one is forced or the (inode, chunk) pair differs from the prepared one, and otherwise with the data read. A preparation is of the chunk the loop is in. |
| ReadLoop.NoValidCopiesWait | src/mount/readdata.cc:275-284 | When no valid copy ever appears, the total wait is 1 second, plus 60 seconds for every six tries up to `maxRetries`. |
| ReadLoop.RecoverableWait | src/mount/readdata.cc:296-302 | A recoverable failure that always recurs is retried `maxRetries + 1` times, with the policy's growing waits. |
| ReadLoop.RunFailing | src/mount/readdata.cc:264-317 | When every reader call fails the same way, the run returns `EBADF` for a missing object and `EIO` otherwise. It reads nothing, after exactly the policy's waits. |
| ReadLoop.RunServed | src/mount/readdata.cc:234-263 | With a reader that always serves, the run reads everything and never waits. |
| ReadLoop.RunRecovers | src/mount/readdata.cc:263-302 | Recoverable failures within the retry limit only delay the read. It completes after the summed recoverable waits. |
| ReadLoop.ReadAccounts | src/mount/readdata.cc:222-263 | For read_data as a whole, sub-reads are in order and in their chunk. The buffer holds exactly the bytes delivered, no more than asked, and that is the size returned on success. A short successful read ended on a short sub-read. |
| ReadLoop.ReadStopsOnShort | src/mount/readdata.cc:222-263 | For read_data as a whole, a short data read is end of file. It can only be the last reader call, and a read that ends on one succeeds. A successful read returns fewer bytes than asked exactly when it ended on a short sub-read. |
| ReadLoop.ReadFailureExplained | src/mount/readdata.cc:264-316 | read_data returns only 0, `EIO` or `EBADF`. An error comes from the last reader call, which failed, and the policy gave up on it at the try counter the loop had reached. That counter is within `maxRetries + 6`. |
| ReadLoop.ReadOpens | src/mount/readdata.cc:232-238 | A nonempty read opens with a preparation exactly when the session is stale, its inode is nonzero, or `offset` lies beyond chunk 0. Otherwise, which is inode 0 at chunk 0 on a fresh session, it opens with a data read. |
| ReadLoop.ReadPreparesFirst | src/mount/readdata.cc:215-245 | A nonempty read starts by preparing the chunk holding `offset` when the session is stale or its inode is nonzero. For a nonzero inode, every data read follows a successful preparation of its chunk. |
| ReadLoop.ReadRefreshes | src/mount/readdata.cc:237-244 | The staleness counter drops to 0 exactly when some preparation of the read succeeded, and otherwise stays as it was. |
| ReadLoop.ReadServed | src/mount/readdata.cc:234-263 | With a reader that always serves, read_data returns everything asked, with status 0 and no wait. |
| ReadLoop.ReadRecovers | src/mount/readdata.cc:296-302 | `k` recoverable failures, with `k` within the limit, end in a full read after the summed waits, at most `11 * (k - 1)` seconds. |
| ReadLoop.ReadFailsPersistently | src/mount/readdata.cc:264-316 | A persistent failure makes read_data return the policy's error with an empty buffer, after the policy's waits. |
| ReadLoop.ReadSession | src/mount/readdata.cc:208-230 | The imperative entry sequence (lock, staleness check, empty-request return, loop, buffer length) yields exactly `ReadOutcome`. |
| ReadLoop.ReadRange | src/mount/readdata.cc:222-322 | The imperative loop returns exactly the status, byte count, trace and refresh flag of `Run`. |
| ReadLoop.Pass | src/mount/readdata.cc:235-263 | The try block, run imperatively on the loop state, yields exactly `Step`. |
| ReadLoop.Recover | src/mount/readdata.cc:264-316 | The catch clauses, run imperatively, yield exactly `AfterFailure`. |
| SessionRegistry.MapIndex | src/mount/readdata.cc:50-53 | The bucket index is below 1024. It equals the inode for small inodes and is congruent to it modulo 1024. |
| SessionRegistry.Without | src/mount/readdata.cc:101-123 | Unlinking keeps exactly the entries outside the removed set, and never lengthens the list. |
| SessionRegistry.WithoutAppend | src/mount/readdata.cc:101-123 | Unlinking distributes over concatenation, so survivors keep their relative order. |
| SessionRegistry.Reclaimed | src/mount/readdata.cc:105-107 | The sessions the sweep reclaims are exactly those that are unlocked and invalid. |
| SessionRegistry.SweptOver | src/mount/readdata.cc:101-123 | After the sweep has visited a set of sessions, a session is present exactly when it is not a visited reclaimable one. Visited survivors have aged once and the rest are untouched. |
| SessionRegistry.Forced | src/mount/readdata.cc:190-198 | After read_inode_ops the same sessions exist. Those of the inode have their counter at 15 and nothing else changed. All others are unchanged. |
| SessionRegistry.EmptyConsistent | src/mount/readdata.cc:156-164 | The empty registry with 1024 empty buckets satisfies the registry invariant. |
| SessionRegistry.NewConsistent | src/mount/readdata.cc:129-137 | Pushing a fresh session with an unused handle at the head of the catalogue and of its bucket keeps the invariant. |
| SessionRegistry.UpdateConsistent | src/mount/readdata.cc:139-154 | Changing a session's lock, validity, waiters, buffer or counter (within 15) keeps the invariant. |
| SessionRegistry.ForcedConsistent | src/mount/readdata.cc:190-198 | Marking an inode's sessions stale keeps the invariant. |
| SessionRegistry.SweptConsistent | src/mount/readdata.cc:100-123 | After a sweep the invariant still holds. This requires the catalogue and each bucket to have lost exactly the reclaimed sessions, and the others to have aged. |
| SessionRegistry.SweepVisits | src/mount/readdata.cc:101-122 | Visiting the next catalogue entry (`Visit`: age it, then unlink it from its bucket and drop it when it is closed and unheld, or keep it) takes the registry from `k` swept sessions to `k + 1`. The visited session is still registered when its turn comes. |
| SessionRegistry.SweptAll | src/mount/readdata.cc:100-123 | After a full pass over a consistent registry, the catalogue keeps exactly its non-reclaimable sessions, in order. Each bucket loses exactly its reclaimable ones. Every survivor has aged once. |
| SessionRegistry.Unlink | src/mount/readdata.cc:108-115 | The bucket walk removes every occurrence of the session and keeps the other entries in order. |
| SessionRegistry.Registry.constructor | src/mount/readdata.cc:156-164 | read_data_init gives an empty, consistent registry, with every bucket empty and the retry limit recorded. |
| SessionRegistry.Registry.New | src/mount/readdata.cc:129-137 | read_data_new returns a fresh handle whose session is valid, unlocked, unwaited and has counter 0. It is at the head of the catalogue and of bucket `inode % 1024`. The other buckets are unchanged and the invariant holds. |
| SessionRegistry.Registry.End | src/mount/readdata.cc:139-154 | read_data_end leaves the session invalid and unlocked, with its waiters unchanged. It stays in the catalogue, and the catalogue, the buckets and the next handle are unchanged. It signals exactly when someone waits. |
| SessionRegistry.Registry.ReadData | src/mount/readdata.cc:200-323 | read_data on a free session returns the status, size and trace of `ReadOutcome`. It stores its session result, and no other session, list or handle changes. |
| SessionRegistry.Registry.FreeBuff | src/mount/readdata.cc:325-332 | read_data_freebuff clears the lock only, and signals exactly when someone waits. The catalogue, the buckets and the next handle are unchanged. |
| SessionRegistry.Registry.Sweep | src/mount/readdata.cc:100-123 | One pass removes exactly the reclaimable sessions from the catalogue and from every bucket, survivors in order. The others age once, and the invariant holds. |
| SessionRegistry.Registry.AgeAndReclaim | src/mount/readdata.cc:100-123 | The in-place walk over the catalogue leaves the state the pass specification `PartlySwept` gives for the whole catalogue. |
| SessionRegistry.Registry.InodeOps | src/mount/readdata.cc:190-198 | read_inode_ops sets the counter of exactly the inode's sessions to 15 and changes nothing else: the catalogue, the buckets and the next handle are unchanged. The invariant holds. |
| SessionRegistry.Registry.MarkStale | src/mount/readdata.cc:193-197 | The walk over one bucket marks exactly the listed sessions of the inode. |

## Left out

- **Threads and locking.** The global mutex, the condition variables, the blocking wait for the lock and fairness are not modelled. Each entry point is one atomic step, and `read_data` and `read_data_end` require the session to be unlocked on entry. The waiting count and whether a waiter would be signalled are kept. Since no caller ever blocks in the model, the count is 0 in every registry reached from the constructor, so `End` and `FreeBuff` never report a signal. The wake-up itself is not modelled.
- **Sweep thread.** The loop around the sweep, its termination flag, its `usleep` between passes and its connection-pool cleanup are not modelled. One pass is `Registry.Sweep`.
- **read_data_term.** Teardown at process exit is not modelled.
- **Memory reclamation.** Freeing a record is modelled as removing its handle from the session map.
- **Logging.** `syslog` calls are dropped.
- **Time.** Real sleeps are recorded as `Sleep(seconds)` events in the trace.
- **The chunk reader.** The chunk reader, the chunk locator, the connector and the connection pool are outside the model. The reader is an oracle from call number to outcome. The model assumes that a data read never delivers more bytes than it asked for, and takes an answer of `n` bytes to deliver `min(n, asked)`. The reader's code is not part of this model, and the source reserves spare buffer room for reads of xor-coded chunks with missing parts. If the reader did report more than it was asked, the source would advance by the reported count, and its 32-bit `bytesToReadLeft` would wrap below zero (`src/mount/readdata.cc:256-258`). The model does not capture that.
- **Buffer contents.** Only the buffer's length is kept. Its capacity reservation is dropped.
- **ReadLoop.ReadOutcome and SessionRegistry.Registry.ReadData: counter reset.** Each successful preparation resets the staleness counter to 0 inside the loop. The model applies the reset once, when the read ends. Under the atomic-step reading, with no sweep interleaving during a read, the result is the same.
- **Integer widths.**
  - 32-bit overflow of the try counter is not modelled. It would need `maxRetries` near 2^32.
  - 16-bit overflow of the waiting count is not modelled.
  - The 8-bit staleness counter is proved to stay within 15.
- Chunks.NextSubRead: the chunk index is the offset divided by 64 MiB, unbounded. The source stores it in a 32-bit variable, which wraps for offsets of 2^58 bytes and more. The model does not capture that wrap.
- **Constants from headers.** The block and chunk sizes (64 KiB, 64 MiB) and the codes `EIO` = 5, `EBADF` = 9 and `ERROR_ENOENT` = 3 come from headers that are not part of this model. Only their roles matter to the proofs.
- **Inode 0.** The loop's initial prepared inode is 0, on the assumption that no real inode is 0. For inode 0, chunk 0 and no forced refresh, the first read therefore skips the preparation; `ReadLoop.ReadOpens` proves exactly when the preparation comes first. `ReadLoop.ReadPreparesFirst` states the every-read preparation property for nonzero inodes only.
- **Sweep in place.** `SessionRegistry.Registry.AgeAndReclaim` builds the surviving catalogue as a new sequence. The source unlinks in place through a pointer-to-pointer. Each bucket is unlinked in place in the array (`Unlink`).
