/** The registry of read sessions: a catalogue of every session, newest
    first, and a 1024-bucket index from inode to sessions, kept in step by
    session creation and by the periodic sweep; and the entry points that
    lock, read through, release and close one session. */
module SessionRegistry {
  import opened Chunks
  import opened RetryPolicy
  import opened Session
  import opened ReadLoop

  /** Number of buckets in the inode index. */
  const MAPSIZE: nat := 1024

  /** A session handle: the identity of a record in the registry. */
  type RecId = nat

  /** The bucket of the inode index that holds the sessions of `inode`: its
      low ten bits. */
  function MapIndex(inode: uint32): (b: nat)
    ensures b < MAPSIZE
    ensures b == inode || inode >= MAPSIZE
    ensures (inode - b) % MAPSIZE == 0
  {
    inode % MAPSIZE
  }

  /** No element occurs twice in `s`. */
  predicate NoDup(s: seq<RecId>) {
    forall i, j :: 0 <= i < j < |s| ==> s[i] != s[j]
  }

  /** `s` with every occurrence of the members of `gone` removed, the rest in
      their original order. */
  function Without(s: seq<RecId>, gone: set<RecId>): (r: seq<RecId>)
    ensures forall x :: x in r <==> x in s && x !in gone
    ensures |r| <= |s|
  {
    if s == [] then []
    else if s[|s| - 1] in gone then Without(s[..|s| - 1], gone)
    else Without(s[..|s| - 1], gone) + [s[|s| - 1]]
  }

  /** Removing from a concatenation removes from each part: the survivors
      keep their relative order. */
  lemma {:induction false} WithoutAppend(s: seq<RecId>, t: seq<RecId>, gone: set<RecId>)
    ensures Without(s + t, gone) == Without(s, gone) + Without(t, gone)
    decreases |t|
  {
    if t == [] {
      assert s + t == s;
    } else {
      var w := t[..|t| - 1];
      assert (s + t)[..|s + t| - 1] == s + w;
      WithoutAppend(s, w, gone);
    }
  }

  /** Removing twice is removing the union. */
  lemma {:induction false} WithoutTwice(s: seq<RecId>, a: set<RecId>, b: set<RecId>)
    ensures Without(Without(s, a), b) == Without(s, a + b)
    decreases |s|
  {
    if s != [] {
      var w := s[..|s| - 1];
      WithoutTwice(w, a, b);
      if s[|s| - 1] !in a {
        var u := Without(w, a) + [s[|s| - 1]];
        assert u[..|u| - 1] == Without(w, a);
      }
    }
  }

  /** Removing what does not occur changes nothing. */
  lemma {:induction false} WithoutAbsent(s: seq<RecId>, gone: set<RecId>)
    requires forall x :: x in gone ==> x !in s
    ensures Without(s, gone) == s
    decreases |s|
  {
    if s != [] {
      var w := s[..|s| - 1];
      assert s == w + [s[|s| - 1]];
      WithoutAbsent(w, gone);
    }
  }

  /** Removing keeps a sequence free of duplicates. */
  lemma {:induction false} WithoutNoDup(s: seq<RecId>, gone: set<RecId>)
    requires NoDup(s)
    ensures NoDup(Without(s, gone))
    decreases |s|
  {
    if s != [] {
      var w := s[..|s| - 1];
      assert NoDup(w) by {
        forall i, j | 0 <= i < j < |w| ensures w[i] != w[j] {
          assert w[i] == s[i] && w[j] == s[j];
        }
      }
      WithoutNoDup(w, gone);
      if s[|s| - 1] !in gone {
        var r := Without(w, gone) + [s[|s| - 1]];
        forall i, j | 0 <= i < j < |r| ensures r[i] != r[j] {
          if j == |r| - 1 {
            assert r[i] in Without(w, gone);
            assert s[|s| - 1] !in w;
          }
        }
      }
    }
  }

  /** A session the sweep reclaims: closed, and not held by anyone. */
  predicate Reclaimable(r: ReadRec) {
    !r.locked && !r.valid
  }

  /** The sessions of `recs` the sweep reclaims. */
  function Reclaimed(recs: map<RecId, ReadRec>): (gone: set<RecId>)
    ensures forall id :: id in gone <==> id in recs && Reclaimable(recs[id])
  {
    set id | id in recs && Reclaimable(recs[id])
  }

  /** The sessions after a sweep has visited those in `done`: each visited one
      has aged, and the visited reclaimable ones are gone. */
  function SweptOver(recs: map<RecId, ReadRec>, done: set<RecId>): (after: map<RecId, ReadRec>)
    ensures forall id :: id in after <==> id in recs && !(id in done && Reclaimable(recs[id]))
    ensures forall id :: id in after ==> after[id] == if id in done then Aged(recs[id]) else recs[id]
  {
    map id | id in recs && !(id in done && Reclaimable(recs[id])) ::
      if id in done then Aged(recs[id]) else recs[id]
  }

  /** The sessions after the sessions of `inode` among `seen` have been
      marked stale. */
  function ForcedAmong(recs: map<RecId, ReadRec>, inode: uint32, seen: set<RecId>): map<RecId, ReadRec> {
    map id | id in recs ::
      if id in seen && recs[id].inode == inode then recs[id].(refreshCounter := REFRESHTICKS) else recs[id]
  }

  /** The sessions after `read_inode_ops(inode)`: each session of `inode` is
      marked stale, so that its next read prepares its chunk again. */
  function Forced(recs: map<RecId, ReadRec>, inode: uint32): (after: map<RecId, ReadRec>)
    ensures after.Keys == recs.Keys
    ensures forall id :: id in recs && recs[id].inode == inode ==>
              after[id].refreshCounter == REFRESHTICKS &&
              after[id].(refreshCounter := recs[id].refreshCounter) == recs[id]
    ensures forall id :: id in recs && recs[id].inode != inode ==> after[id] == recs[id]
  {
    ForcedAmong(recs, inode, recs.Keys)
  }

  /** Marking one more session as seen. */
  lemma ForcedAmongStep(recs: map<RecId, ReadRec>, inode: uint32, seen: set<RecId>, id: RecId)
    requires id in recs
    ensures var cur := ForcedAmong(recs, inode, seen);
            (if cur[id].inode == inode then cur[id := cur[id].(refreshCounter := REFRESHTICKS)] else cur)
            == ForcedAmong(recs, inode, seen + {id})
  {
  }

  /** Once every session of `inode` has been seen, all of them are marked. */
  lemma ForcedAmongAll(recs: map<RecId, ReadRec>, inode: uint32, seen: set<RecId>)
    requires forall id :: id in recs && recs[id].inode == inode ==> id in seen
    ensures ForcedAmong(recs, inode, seen) == Forced(recs, inode)
  {
  }

  /** Every bucket entry is a session whose inode falls in that bucket. */
  ghost predicate Indexed(bs: seq<seq<RecId>>, recs: map<RecId, ReadRec>) {
    forall b, id :: 0 <= b < |bs| && id in bs[b] ==> id in recs && MapIndex(recs[id].inode) == b
  }

  /** The registry's invariant, over its catalogue, its buckets, its
      sessions and its next handle: the catalogue lists every session once;
      each session sits once in the bucket of its inode and in no other;
      handles of live sessions are below `nextId`; staleness counters stay
      within their ceiling. */
  ghost predicate Consistent(cat: seq<RecId>, bs: seq<seq<RecId>>, recs: map<RecId, ReadRec>, nextId: nat) {
    && |bs| == MAPSIZE
    && NoDup(cat)
    && (forall id :: id in recs <==> id in cat)
    && (forall id :: id in recs ==> id < nextId)
    && (forall b :: 0 <= b < MAPSIZE ==> NoDup(bs[b]))
    && Indexed(bs, recs)
    && (forall id :: id in recs ==> id in bs[MapIndex(recs[id].inode)])
    && (forall id :: id in recs ==> recs[id].refreshCounter <= REFRESHTICKS)
  }

  /** The registry read_data_init leaves is consistent. */
  lemma EmptyConsistent(nextId: nat)
    ensures Consistent([], seq(MAPSIZE, _ => []), map[], nextId)
  {
  }

  /** Pushing a fresh session with an unused handle at the head of the
      catalogue and of its bucket keeps the registry consistent. */
  lemma NewConsistent(cat: seq<RecId>, bs: seq<seq<RecId>>, recs: map<RecId, ReadRec>, nextId: nat, inode: uint32)
    requires Consistent(cat, bs, recs, nextId)
    ensures nextId !in recs
    ensures Consistent([nextId] + cat, bs[MapIndex(inode) := [nextId] + bs[MapIndex(inode)]],
                       recs[nextId := NewRec(inode)], nextId + 1)
  {
    var b := MapIndex(inode);
    var bs' := bs[b := [nextId] + bs[b]];
    var recs' := recs[nextId := NewRec(inode)];
    assert nextId !in cat;
    PushNoDup(nextId, cat);
    PushNoDup(nextId, bs[b]);
    forall c, id | 0 <= c < MAPSIZE && id in bs'[c]
      ensures id in recs' && MapIndex(recs'[id].inode) == c
    {
      if id == nextId {
        assert c == b;
      }
    }
  }

  lemma PushNoDup(x: RecId, s: seq<RecId>)
    requires NoDup(s) && x !in s
    ensures NoDup([x] + s)
  {
    var t := [x] + s;
    forall i, j | 0 <= i < j < |t| ensures t[i] != t[j] {
      if i == 0 {
        assert t[j] == s[j - 1];
      } else {
        assert t[i] == s[i - 1] && t[j] == s[j - 1];
      }
    }
  }

  /** Changing a session's fields other than its inode, with its counter
      within the ceiling, keeps the registry consistent. */
  lemma UpdateConsistent(cat: seq<RecId>, bs: seq<seq<RecId>>, recs: map<RecId, ReadRec>, nextId: nat,
                         id: RecId, r: ReadRec)
    requires Consistent(cat, bs, recs, nextId)
    requires id in recs && r.inode == recs[id].inode && r.refreshCounter <= REFRESHTICKS
    ensures Consistent(cat, bs, recs[id := r], nextId)
  {
  }

  /** Marking the sessions of an inode stale keeps the registry consistent. */
  lemma ForcedConsistent(cat: seq<RecId>, bs: seq<seq<RecId>>, recs: map<RecId, ReadRec>, nextId: nat,
                         inode: uint32)
    requires Consistent(cat, bs, recs, nextId)
    ensures Consistent(cat, bs, Forced(recs, inode), nextId)
  {
  }

  /** `s'` lists, once each, exactly the entries of `s` outside `gone`. */
  ghost predicate Pruned(s': seq<RecId>, s: seq<RecId>, gone: set<RecId>) {
    NoDup(s') && forall x :: x in s' <==> x in s && x !in gone
  }

  /** Removing from a duplicate-free sequence prunes it. */
  lemma WithoutPrunes(s: seq<RecId>, gone: set<RecId>)
    requires NoDup(s)
    ensures Pruned(Without(s, gone), s, gone)
  {
    WithoutNoDup(s, gone);
  }

  /** A sweep of the whole registry keeps it consistent: when the reclaimed
      sessions leave the catalogue and their buckets, and the session map
      loses them while the others age, the three stay in step. */
  lemma SweptConsistent(cat: seq<RecId>, bs: seq<seq<RecId>>, recs: map<RecId, ReadRec>, nextId: nat,
                        cat': seq<RecId>, bs': seq<seq<RecId>>)
    requires Consistent(cat, bs, recs, nextId)
    requires Pruned(cat', cat, Reclaimed(recs))
    requires |bs'| == MAPSIZE && forall b :: 0 <= b < MAPSIZE ==> Pruned(bs'[b], bs[b], Reclaimed(recs))
    ensures Consistent(cat', bs', SweptOver(recs, recs.Keys), nextId)
  {
    var recs' := SweptOver(recs, recs.Keys);
    forall b, id | 0 <= b < MAPSIZE && id in bs'[b]
      ensures id in recs' && MapIndex(recs'[id].inode) == b
    {
      assert Pruned(bs'[b], bs[b], Reclaimed(recs));
      assert id in bs[b];
    }
    forall id | id in recs' ensures id in bs'[MapIndex(recs'[id].inode)] {
      var b := MapIndex(recs[id].inode);
      assert Pruned(bs'[b], bs[b], Reclaimed(recs));
      assert id in bs[b];
    }
  }

  /** Removing from a sequence with one more element at its end. */
  lemma WithoutSnoc(s: seq<RecId>, x: RecId, gone: set<RecId>)
    ensures Without(s + [x], gone) == if x in gone then Without(s, gone) else Without(s, gone) + [x]
  {
    assert (s + [x])[..|s|] == s;
  }

  /** The sweep visits one more session: it ages, and goes if reclaimable. */
  lemma SweptOverStep(recs: map<RecId, ReadRec>, done: set<RecId>, id: RecId)
    requires id in recs && id !in done
    ensures var cur := SweptOver(recs, done);
            var aged := cur[id := Aged(cur[id])];
            (if Reclaimable(recs[id]) then aged - {id} else aged) == SweptOver(recs, done + {id})
  {
  }

  /** The buckets once one more visited session has been dealt with: it is
      unlinked from its home bucket if reclaimed, and occurs in no other. */
  lemma BucketsStep(b0: seq<seq<RecId>>, before: seq<seq<RecId>>, after: seq<seq<RecId>>,
                    gone: set<RecId>, done: set<RecId>, id: RecId, home: nat)
    requires |b0| == |before| == MAPSIZE && home < MAPSIZE
    requires forall c :: 0 <= c < MAPSIZE ==> before[c] == Without(b0[c], gone * done)
    requires forall c :: 0 <= c < MAPSIZE && c != home ==> id !in b0[c]
    requires id in gone ==> after == before[home := Without(before[home], {id})]
    requires id !in gone ==> after == before
    ensures |after| == MAPSIZE
    ensures forall c :: 0 <= c < MAPSIZE ==> after[c] == Without(b0[c], gone * (done + {id}))
  {
    if id in gone {
      assert gone * (done + {id}) == gone * done + {id};
      forall c | 0 <= c < MAPSIZE ensures after[c] == Without(b0[c], gone * (done + {id})) {
        WithoutTwice(b0[c], gone * done, {id});
        if c != home {
          WithoutAbsent(Without(b0[c], gone * done), {id});
        }
      }
    } else {
      assert gone * (done + {id}) == gone * done;
    }
  }

  /** The sessions among the first `k` of the catalogue. */
  ghost function Visited(c0: seq<RecId>, k: nat): set<RecId>
    requires k <= |c0|
  {
    set j | 0 <= j < k :: c0[j]
  }

  /** The state of the sweep's walk after it has visited the first `k`
      sessions of the catalogue `c0` (the set `done`): the survivors so far
      are `kept`, the visited sessions have aged or gone, and the buckets
      have lost the visited reclaimable sessions. */
  ghost predicate Sweeping(c0: seq<RecId>, b0: seq<seq<RecId>>, r0: map<RecId, ReadRec>,
                           kept: seq<RecId>, bs: seq<seq<RecId>>, recs: map<RecId, ReadRec>,
                           k: nat, done: set<RecId>) {
    && |bs| == MAPSIZE && |b0| == MAPSIZE && k <= |c0|
    && kept == Without(c0[..k], Reclaimed(r0))
    && done == Visited(c0, k)
    && recs == SweptOver(r0, done)
    && forall c :: 0 <= c < MAPSIZE ==> bs[c] == Without(b0[c], Reclaimed(r0) * done)
  }

  /** The walk starts with nothing visited. */
  lemma SweepStarts(c0: seq<RecId>, b0: seq<seq<RecId>>, r0: map<RecId, ReadRec>)
    requires |b0| == MAPSIZE
    ensures Sweeping(c0, b0, r0, [], b0, r0, 0, Visited(c0, 0))
  {
    assert Visited(c0, 0) == {};
    forall c | 0 <= c < MAPSIZE ensures b0[c] == Without(b0[c], Reclaimed(r0) * {}) {
      WithoutAbsent(b0[c], Reclaimed(r0) * {});
    }
  }

  /** What the walk knows of the session it is about to visit: it is not
      yet visited, unchanged so far, and listed in no bucket but its own. */
  lemma SweepHead(c0: seq<RecId>, b0: seq<seq<RecId>>, r0: map<RecId, ReadRec>,
                  kept: seq<RecId>, bs: seq<seq<RecId>>, recs: map<RecId, ReadRec>,
                  k: nat, done: set<RecId>)
    requires NoDup(c0) && (forall id :: id in r0 <==> id in c0) && Indexed(b0, r0)
    requires Sweeping(c0, b0, r0, kept, bs, recs, k, done) && k < |c0|
    ensures c0[k] in r0 && c0[k] !in done && c0[k] in recs && recs[c0[k]] == r0[c0[k]]
    ensures forall c :: 0 <= c < MAPSIZE && c != MapIndex(r0[c0[k]].inode) ==> c0[k] !in b0[c]
    ensures done + {c0[k]} == Visited(c0, k + 1)
    ensures Without(c0[..k + 1], Reclaimed(r0)) ==
              if c0[k] in Reclaimed(r0) then kept else kept + [c0[k]]
  {
    var id := c0[k];
    assert id !in done by {
      forall j | 0 <= j < k ensures c0[j] != id { }
    }
    assert c0[..k + 1] == c0[..k] + [id];
    WithoutSnoc(c0[..k], id, Reclaimed(r0));
  }

  /** A visited session that is reclaimable leaves its bucket and the
      registry, and is not kept. */
  lemma SweepDrops(c0: seq<RecId>, b0: seq<seq<RecId>>, r0: map<RecId, ReadRec>,
                   kept: seq<RecId>, bs: seq<seq<RecId>>, recs: map<RecId, ReadRec>,
                   k: nat, done: set<RecId>, bs': seq<seq<RecId>>, recs': map<RecId, ReadRec>)
    requires NoDup(c0) && (forall id :: id in r0 <==> id in c0) && Indexed(b0, r0)
    requires Sweeping(c0, b0, r0, kept, bs, recs, k, done) && k < |c0|
    requires c0[k] in recs && Reclaimable(Aged(recs[c0[k]]))
    requires var home := MapIndex(recs[c0[k]].inode);
             bs' == bs[home := Without(bs[home], {c0[k]})]
    requires recs' == recs[c0[k] := Aged(recs[c0[k]])] - {c0[k]}
    ensures Sweeping(c0, b0, r0, kept, bs', recs', k + 1, done + {c0[k]})
  {
    SweepHead(c0, b0, r0, kept, bs, recs, k, done);
    var id := c0[k];
    SweptOverStep(r0, done, id);
    BucketsStep(b0, bs, bs', Reclaimed(r0), done, id, MapIndex(recs[id].inode));
  }

  /** A visited session that is not reclaimable is kept, aged. */
  lemma SweepKeeps(c0: seq<RecId>, b0: seq<seq<RecId>>, r0: map<RecId, ReadRec>,
                   kept: seq<RecId>, bs: seq<seq<RecId>>, recs: map<RecId, ReadRec>,
                   k: nat, done: set<RecId>, recs': map<RecId, ReadRec>)
    requires NoDup(c0) && (forall id :: id in r0 <==> id in c0) && Indexed(b0, r0)
    requires Sweeping(c0, b0, r0, kept, bs, recs, k, done) && k < |c0|
    requires c0[k] in recs && !Reclaimable(Aged(recs[c0[k]]))
    requires recs' == recs[c0[k] := Aged(recs[c0[k]])]
    ensures Sweeping(c0, b0, r0, kept + [c0[k]], bs, recs', k + 1, done + {c0[k]})
  {
    SweepHead(c0, b0, r0, kept, bs, recs, k, done);
    var id := c0[k];
    SweptOverStep(r0, done, id);
    BucketsStep(b0, bs, bs, Reclaimed(r0), done, id, MapIndex(recs[id].inode));
  }

  /** When the walk reaches the end of the catalogue, every session has
      been visited. */
  lemma SweepEnds(c0: seq<RecId>, b0: seq<seq<RecId>>, r0: map<RecId, ReadRec>,
                  kept: seq<RecId>, bs: seq<seq<RecId>>, recs: map<RecId, ReadRec>,
                  done: set<RecId>)
    requires forall id :: id in r0 <==> id in c0
    requires Sweeping(c0, b0, r0, kept, bs, recs, |c0|, done)
    ensures kept == Without(c0, Reclaimed(r0))
    ensures recs == SweptOver(r0, r0.Keys)
    ensures forall c :: 0 <= c < MAPSIZE ==> bs[c] == Without(b0[c], Reclaimed(r0))
  {
    assert c0[..|c0|] == c0;
    assert done == r0.Keys by {
      forall id | id in r0 ensures id in done {
        var j :| 0 <= j < |c0| && c0[j] == id;
      }
    }
    assert Reclaimed(r0) * done == Reclaimed(r0);
  }

  /** What the sweep walks and changes: the sessions it has kept so far,
      the buckets and the session map. */
  datatype SweepState = SweepState(kept: seq<RecId>, buckets: seq<seq<RecId>>, recs: map<RecId, ReadRec>)

  /** The sweep's visit of session `id`: its counter ages; then, if it is
      closed and nobody holds it, it is unlinked from its inode's bucket and
      deleted, and otherwise it is kept. */
  function Visit(st: SweepState, id: RecId): SweepState {
    if id !in st.recs || |st.buckets| != MAPSIZE then st
    else
      var rec := Aged(st.recs[id]);
      var home := MapIndex(st.recs[id].inode);
      if Reclaimable(rec) then
        SweepState(st.kept, st.buckets[home := Without(st.buckets[home], {id})], st.recs[id := rec] - {id})
      else
        SweepState(st.kept + [id], st.buckets, st.recs[id := rec])
  }

  /** The registry once the sweep has visited the first `k` sessions of the
      catalogue `c0`: the kept list holds those of them that are not
      reclaimable, in order; each bucket has lost the reclaimable ones; the
      session map has aged them and lost the reclaimable ones. */
  ghost function PartlySwept(c0: seq<RecId>, b0: seq<seq<RecId>>, r0: map<RecId, ReadRec>, k: nat): SweepState
    requires |b0| == MAPSIZE && k <= |c0|
  {
    var done := Visited(c0, k);
    SweepState(Without(c0[..k], Reclaimed(r0)),
               seq(MAPSIZE, c requires 0 <= c < MAPSIZE => Without(b0[c], Reclaimed(r0) * done)),
               SweptOver(r0, done))
  }

  /** `PartlySwept` is the one state `Sweeping` describes. */
  lemma PartlySweptIs(c0: seq<RecId>, b0: seq<seq<RecId>>, r0: map<RecId, ReadRec>, st: SweepState, k: nat)
    requires |b0| == MAPSIZE && k <= |c0|
    ensures st == PartlySwept(c0, b0, r0, k) <==>
            Sweeping(c0, b0, r0, st.kept, st.buckets, st.recs, k, Visited(c0, k))
  {
    var p := PartlySwept(c0, b0, r0, k);
    if Sweeping(c0, b0, r0, st.kept, st.buckets, st.recs, k, Visited(c0, k)) {
      assert st.buckets == p.buckets;
    }
  }

  /** Before the walk, nothing has changed. */
  lemma SweepBegins(c0: seq<RecId>, b0: seq<seq<RecId>>, r0: map<RecId, ReadRec>)
    requires |b0| == MAPSIZE
    ensures PartlySwept(c0, b0, r0, 0) == SweepState([], b0, r0)
  {
    SweepStarts(c0, b0, r0);
    PartlySweptIs(c0, b0, r0, SweepState([], b0, r0), 0);
  }

  /** Visiting the next session of the catalogue takes the registry from
      `k` sessions swept to `k + 1`; the session is still registered when
      its turn comes. */
  lemma SweepVisits(c0: seq<RecId>, b0: seq<seq<RecId>>, r0: map<RecId, ReadRec>, k: nat)
    requires NoDup(c0) && (forall id :: id in r0 <==> id in c0) && Indexed(b0, r0) && |b0| == MAPSIZE
    requires k < |c0|
    ensures c0[k] in PartlySwept(c0, b0, r0, k).recs
    ensures Visit(PartlySwept(c0, b0, r0, k), c0[k]) == PartlySwept(c0, b0, r0, k + 1)
  {
    var st := PartlySwept(c0, b0, r0, k);
    PartlySweptIs(c0, b0, r0, st, k);
    var done := Visited(c0, k);
    SweepHead(c0, b0, r0, st.kept, st.buckets, st.recs, k, done);
    var id := c0[k];
    var st' := Visit(st, id);
    if Reclaimable(Aged(st.recs[id])) {
      SweepDrops(c0, b0, r0, st.kept, st.buckets, st.recs, k, done, st'.buckets, st'.recs);
    } else {
      SweepKeeps(c0, b0, r0, st.kept, st.buckets, st.recs, k, done, st'.recs);
    }
    PartlySweptIs(c0, b0, r0, st', k + 1);
  }

  /** A whole pass over a consistent catalogue: the catalogue keeps exactly
      its sessions that are not reclaimable, in order; each bucket loses
      exactly its reclaimable sessions; the other sessions age once. */
  lemma SweptAll(c0: seq<RecId>, b0: seq<seq<RecId>>, r0: map<RecId, ReadRec>)
    requires (forall id :: id in r0 <==> id in c0) && |b0| == MAPSIZE
    ensures var st := PartlySwept(c0, b0, r0, |c0|);
            && st.kept == Without(c0, Reclaimed(r0))
            && st.recs == SweptOver(r0, r0.Keys)
            && |st.buckets| == MAPSIZE
            && forall c :: 0 <= c < MAPSIZE ==> st.buckets[c] == Without(b0[c], Reclaimed(r0))
  {
    var st := PartlySwept(c0, b0, r0, |c0|);
    PartlySweptIs(c0, b0, r0, st, |c0|);
    SweepEnds(c0, b0, r0, st.kept, st.buckets, st.recs, Visited(c0, |c0|));
  }

  /** The bucket walk of the sweep: unlink every occurrence of `id`, keeping
      the other entries in order. */
  method Unlink(s: seq<RecId>, id: RecId) returns (r: seq<RecId>)
    ensures r == Without(s, {id})
  {
    r := s;
    var i := 0;
    ghost var k := 0;
    while i < |r|
      invariant 0 <= i <= |r| && 0 <= k <= |s|
      invariant r[..i] == Without(s[..k], {id})
      invariant r[i..] == s[k..]
      decreases |r| - i
    {
      assert s[..k + 1] == s[..k] + [s[k]];
      assert r[i] == s[k];
      if r[i] == id {
        WithoutAppend(s[..k], [s[k]], {id});
        ghost var r0 := r;
        r := r[..i] + r[i + 1..];
        assert r[i..] == r0[i + 1..] == s[k + 1..];
      } else {
        WithoutAppend(s[..k], [s[k]], {id});
        assert r[..i + 1] == r[..i] + [r[i]];
        assert r[i + 1..] == s[k + 1..];
        i := i + 1;
      }
      k := k + 1;
    }
    assert s[k..] == [];
    assert s[..k] == s;
    assert r == r[..i];
  }

  class Registry {
    /** Every session, newest first. */
    var catalogue: seq<RecId>
    /** For each bucket, the sessions whose inode falls in it, newest first. */
    var buckets: array<seq<RecId>>
    /** The sessions themselves. */
    var recs: map<RecId, ReadRec>
    /** The handle the next session gets. */
    var nextId: RecId
    /** How many times a retryable failure is retried. */
    const maxRetries: nat

    /** The registry is consistent and has its 1024 buckets. */
    ghost predicate Valid()
      reads this, buckets
    {
      buckets.Length == MAPSIZE && Consistent(catalogue, buckets[..], recs, nextId)
    }

    /** read_data_init: an empty registry with every bucket empty. */
    constructor (retries: nat)
      ensures Valid()
      ensures catalogue == [] && recs == map[] && maxRetries == retries
      ensures forall b :: 0 <= b < MAPSIZE ==> buckets[b] == []
      ensures fresh(buckets)
    {
      catalogue := [];
      recs := map[];
      nextId := 0;
      maxRetries := retries;
      buckets := new seq<RecId>[MAPSIZE](_ => []);
      new;
      EmptyConsistent(0);
      assert buckets[..] == seq(MAPSIZE, _ => []);
    }

    /** read_data_new: a fresh, valid, unlocked session for `inode`, pushed
        at the head of the catalogue and of its inode's bucket. */
    method New(inode: uint32) returns (id: RecId)
      requires Valid()
      modifies this, buckets
      ensures Valid()
      ensures id !in old(recs) && recs == old(recs)[id := NewRec(inode)]
      ensures recs[id] == ReadRec(inode, 0, true, false, 0, 0)
      ensures catalogue == [id] + old(catalogue)
      ensures buckets == old(buckets)
      ensures buckets[MapIndex(inode)] == [id] + old(buckets[MapIndex(inode)])
      ensures forall b :: 0 <= b < MAPSIZE && b != MapIndex(inode) ==> buckets[b] == old(buckets[b])
    {
      NewConsistent(catalogue, buckets[..], recs, nextId, inode);
      id := nextId;
      nextId := nextId + 1;
      recs := recs[id := NewRec(inode)];
      catalogue := [id] + catalogue;
      var b := MapIndex(inode);
      buckets[b] := [id] + buckets[b];
      assert buckets[..] == old(buckets[..])[b := [id] + old(buckets[b])];
    }

    /** read_data_end: close the session. It stays listed until the sweep
        reclaims it; `signalled` tells whether a waiter was woken. */
    method End(id: RecId) returns (signalled: bool)
      requires Valid() && id in recs && !recs[id].locked
      modifies this
      ensures Valid()
      ensures recs == old(recs)[id := Ended(old(recs)[id])]
      ensures !recs[id].valid && !recs[id].locked && recs[id].waiting == old(recs)[id].waiting
      ensures catalogue == old(catalogue) && nextId == old(nextId)
      ensures buckets == old(buckets) && buckets[..] == old(buckets[..])
      ensures signalled == WakesWaiter(old(recs)[id])
    {
      var rec := Ended(recs[id]);
      signalled := WakesWaiter(rec);
      UpdateConsistent(catalogue, buckets[..], recs, nextId, id, rec);
      recs := recs[id := rec];
    }

    /** read_data on session `id`, which nobody holds: lock it, note
        whether it is stale, return at once for an empty request, and
        otherwise run the read loop through `reader`; the session stays
        locked for the caller, holding the bytes read, with its staleness
        counter zeroed when a preparation succeeded. */
    method ReadData(id: RecId, offset: nat, size: uint32, reader: nat -> Outcome)
      returns (status: nat, outSize: nat, trace: seq<Event>)
      requires Valid() && id in recs && !recs[id].locked
      requires offset % MFSBLOCKSIZE == 0 && size % MFSBLOCKSIZE == 0
      modifies this
      ensures Valid()
      ensures var res := ReadOutcome(old(recs)[id], offset, size, reader, maxRetries);
              status == res.status && outSize == res.size && trace == res.trace &&
              recs == old(recs)[id := res.rec]
      ensures catalogue == old(catalogue) && nextId == old(nextId)
      ensures buckets == old(buckets) && buckets[..] == old(buckets[..])
    {
      var res := ReadSession(recs[id], offset, size, reader, maxRetries);
      assert res.rec.inode == recs[id].inode;
      assert res.rec.refreshCounter <= REFRESHTICKS;
      UpdateConsistent(catalogue, buckets[..], recs, nextId, id, res.rec);
      recs := recs[id := res.rec];
      status, outSize, trace := res.status, res.size, res.trace;
    }

    /** read_data_freebuff: release the session after a read; `signalled`
        tells whether a waiter was woken. */
    method FreeBuff(id: RecId) returns (signalled: bool)
      requires Valid() && id in recs
      modifies this
      ensures Valid()
      ensures recs == old(recs)[id := Released(old(recs)[id])]
      ensures !recs[id].locked
      ensures catalogue == old(catalogue) && nextId == old(nextId)
      ensures buckets == old(buckets) && buckets[..] == old(buckets[..])
      ensures signalled == WakesWaiter(old(recs)[id])
    {
      signalled := WakesWaiter(recs[id]);
      UpdateConsistent(catalogue, buckets[..], recs, nextId, id, Released(recs[id]));
      recs := recs[id := Released(recs[id])];
    }

    /** One pass of the background sweep (the loop body of
        read_data_delayed_ops): every session ages by one tick, and the
        closed sessions nobody holds leave the catalogue, their bucket and
        the registry, the survivors keeping their order. */
    method Sweep()
      requires Valid()
      modifies this, buckets
      ensures Valid()
      ensures buckets == old(buckets) && nextId == old(nextId)
      ensures catalogue == Without(old(catalogue), Reclaimed(old(recs)))
      ensures forall b :: 0 <= b < MAPSIZE ==> buckets[b] == Without(old(buckets[b]), Reclaimed(old(recs)))
      ensures recs == SweptOver(old(recs), old(recs).Keys)
    {
      ghost var c0, b0, r0 := catalogue, buckets[..], recs;
      AgeAndReclaim();
      SweptAll(c0, b0, r0);
      forall b | 0 <= b < MAPSIZE ensures buckets[b] == Without(b0[b], Reclaimed(r0)) {
        assert buckets[b] == buckets[..][b];
      }
      WithoutPrunes(c0, Reclaimed(r0));
      forall b | 0 <= b < MAPSIZE ensures Pruned(buckets[..][b], b0[b], Reclaimed(r0)) {
        WithoutPrunes(b0[b], Reclaimed(r0));
      }
      SweptConsistent(c0, b0, r0, nextId, catalogue, buckets[..]);
    }

    /** The walk of the sweep over the catalogue, unlinking in place: it
        leaves the registry as `PartlySwept` describes it once every session
        has been visited. */
    method AgeAndReclaim()
      requires buckets.Length == MAPSIZE
      requires NoDup(catalogue) && forall id :: id in recs <==> id in catalogue
      requires Indexed(buckets[..], recs)
      modifies this, buckets
      ensures buckets == old(buckets) && nextId == old(nextId)
      ensures SweepState(catalogue, buckets[..], recs) ==
              PartlySwept(old(catalogue), old(buckets[..]), old(recs), |old(catalogue)|)
    {
      ghost var c0, b0, r0 := catalogue, buckets[..], recs;
      SweepBegins(c0, b0, r0);
      var kept := [];
      var k := 0;
      while k < |catalogue|
        invariant catalogue == c0 && buckets == old(buckets) && nextId == old(nextId)
        invariant k <= |c0|
        invariant SweepState(kept, buckets[..], recs) == PartlySwept(c0, b0, r0, k)
      {
        SweepVisits(c0, b0, r0, k);
        ghost var before := SweepState(kept, buckets[..], recs);
        var id := catalogue[k];
        var home := MapIndex(recs[id].inode);
        var rec := Aged(recs[id]);
        if !rec.locked && !rec.valid {
          buckets[home] := Unlink(buckets[home], id);
          assert buckets[..] == before.buckets[home := Without(before.buckets[home], {id})];
          recs := recs[id := rec] - {id};
        } else {
          recs := recs[id := rec];
          kept := kept + [id];
        }
        assert SweepState(kept, buckets[..], recs) == Visit(before, id);
        k := k + 1;
      }
      catalogue := kept;
    }

    /** read_inode_ops: the attributes of `inode` changed, so every session
        of it is marked stale; its bucket is walked and nothing else changes. */
    method InodeOps(inode: uint32)
      requires Valid()
      modifies this
      ensures Valid()
      ensures recs == Forced(old(recs), inode)
      ensures catalogue == old(catalogue) && nextId == old(nextId)
      ensures buckets == old(buckets) && buckets[..] == old(buckets[..])
    {
      var bucket := buckets[MapIndex(inode)];
      ForcedConsistent(catalogue, buckets[..], recs, nextId, inode);
      assert bucket == buckets[..][MapIndex(inode)];
      MarkStale(bucket, inode);
      ForcedAmongAll(old(recs), inode, set id | id in bucket);
    }

    /** The walk of read_inode_ops over one bucket: each listed session of
        `inode` gets its staleness counter set to the ceiling. */
    method MarkStale(bucket: seq<RecId>, inode: uint32)
      requires forall id :: id in bucket ==> id in recs
      modifies this
      ensures recs == ForcedAmong(old(recs), inode, set id | id in bucket)
      ensures catalogue == old(catalogue) && nextId == old(nextId) && buckets == old(buckets)
    {
      ghost var seen: set<RecId> := {};
      var i := 0;
      while i < |bucket|
        invariant 0 <= i <= |bucket|
        invariant catalogue == old(catalogue) && nextId == old(nextId) && buckets == old(buckets)
        invariant seen == set k | 0 <= k < i :: bucket[k]
        invariant recs == ForcedAmong(old(recs), inode, seen)
      {
        var id := bucket[i];
        ForcedAmongStep(old(recs), inode, seen, id);
        if recs[id].inode == inode {
          recs := recs[id := recs[id].(refreshCounter := REFRESHTICKS)];
        }
        seen := seen + {id};
        i := i + 1;
      }
      assert seen == set id | id in bucket;
    }
  }
}
