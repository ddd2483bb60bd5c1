/** Whole runs of a stream and one of its consumer groups: what the group has delivered, what is pending,
    and whether the counts are right (internal/datastructure/stream.go:111-124, 320-514). */
module StreamRuns {
  import opened StreamIDs
  import opened Bytes
  import opened EntryCodec
  import opened StreamLogs
  import opened Groups
  import opened Streams

  datatype Event =
    | Append(entry: Entry)
    | Read(consumer: string, count: int, seen: int, now: int)
    | Ack(ids: seq<string>)
    | Claim(claimer: string, minIdle: int, claimed: seq<string>, seenAt: int, at: int)
    | Drop(dropped: string)
    | SetID(id: StreamID)

  // The log and the group, with what was delivered so far and which of it was acknowledged.
  datatype State = State(log: seq<Entry>, group: Group, got: seq<Entry>, acked: set<string>)

  ghost function Acknowledged(g: Group, ids: seq<string>): set<string> {
    set k | k in g.pendingEntries && k in ids
  }

  // One call of the stream's methods; each equation is that method's contract.
  ghost function Step(s: State, e: Event): State {
    match e
    case Append(entry) =>
      if forall i :: 0 <= i < |s.log| ==> s.log[i].id.Less(entry.id) then s.(log := s.log + [entry]) else s
    case Read(consumer, count, seen, now) =>
      var batch := Batch(s.log, s.group.lastDeliveredID, count);
      s.(group := DeliverAll(Seen(s.group, consumer, seen), consumer, now, batch), got := s.got + batch)
    case Ack(ids) =>
      s.(group := AckAll(s.group, ids), acked := s.acked + Acknowledged(s.group, ids))
    case Claim(consumer, minIdle, ids, seen, now) =>
      s.(group := ClaimAll(EnsureConsumer(s.group, consumer, seen), consumer, minIdle, now, ids))
    case Drop(consumer) =>
      if consumer in s.group.consumers then s.(group := Released(s.group, consumer)) else s
    case SetID(id) =>
      s.(group := s.group.(lastDeliveredID := id))
  }

  ghost function Run(s: State, es: seq<Event>): State
    decreases |es|
  {
    if es == [] then s else Run(Step(s, es[0]), es[1..])
  }

  // A new group that starts behind a given ID.
  ghost function Fresh(log: seq<Entry>, name: string, start: StreamID): State {
    State(log, Group(name, start, map[], map[]), [], {})
  }

  // The entries after one ID and up to another.
  ghost function Between(log: seq<Entry>, from: StreamID, to: StreamID): seq<Entry> {
    WithRanks(log, Rank(from) + 1, Rank(to))
  }

  // The read scans from the last ID with its sequence number plus one.  That number wraps around at its
  // maximum, which does harm exactly when the log has an entry of the same millisecond.
  ghost predicate ReadGuard(log: seq<Entry>, last: StreamID) {
    last.seq_ == TWO_64 - 1 ==> forall i :: 0 <= i < |log| ==> log[i].id.ms != last.ms
  }

  ghost predicate Guarded(s: State, es: seq<Event>)
    decreases |es|
  {
    es == [] || ((es[0].Read? ==> ReadGuard(s.log, s.group.lastDeliveredID)) && Guarded(Step(s, es[0]), es[1..]))
  }

  ghost predicate NoSetID(es: seq<Event>) {
    forall i :: 0 <= i < |es| ==> !es[i].SetID?
  }

  // ---- one read ----

  lemma GuardedCut(log: seq<Entry>, last: StreamID)
    requires Increasing(log) && ReadGuard(log, last)
    ensures forall i :: 0 <= i < |log| ==> (Rank(log[i].id) <= Rank(last) <==> i < FirstFrom(log, last.NextSeq()))
  {
    FirstFromCuts(log, last.NextSeq());
    forall i | 0 <= i < |log| ensures Rank(log[i].id) <= Rank(last) <==> Rank(log[i].id) < Rank(last.NextSeq()) {
      NextRank(log[i].id, last);
    }
  }

  lemma NextRank(id: StreamID, last: StreamID)
    requires last.seq_ == TWO_64 - 1 ==> id.ms != last.ms
    ensures Rank(id) <= Rank(last) <==> Rank(id) < Rank(last.NextSeq())
  {
    RankOrder(id, last);
    RankOrder(last, id);
    if last.seq_ == TWO_64 - 1 {
      RankOrder(id, StreamID(last.ms, 0));
    } else {
      assert Rank(last.NextSeq()) == Rank(last) + 1;
    }
  }

  // A guarded read delivers the first entries behind the last delivered one.
  lemma GuardedBatch(log: seq<Entry>, last: StreamID, count: int)
    requires Increasing(log) && ReadGuard(log, last)
    ensures var lo := FirstFrom(log, last.NextSeq());
            var batch := Batch(log, last, count);
            && lo + |batch| <= |log| && batch == log[lo..lo + |batch|] && Increasing(batch)
            && (forall i :: 0 <= i < |batch| ==> Rank(last) < Rank(batch[i].id))
  {
    GuardedCut(log, last);
  }

  // An unguarded read starts at or before the last delivered entry.
  lemma UnguardedBatch(log: seq<Entry>, last: StreamID, count: int)
    requires Increasing(log) && !ReadGuard(log, last)
    ensures var batch := Batch(log, last, count);
            batch != [] && Rank(batch[0].id) <= Rank(last)
  {
    var i :| 0 <= i < |log| && log[i].id.ms == last.ms;
    var lo := FirstFrom(log, last.NextSeq());
    FirstFromCuts(log, last.NextSeq());
    assert last.NextSeq() == StreamID(last.ms, 0);
    assert Rank(log[i].id) >= Rank(last.NextSeq());
    assert lo <= i;
    assert Rank(log[lo].id) <= Rank(log[i].id);
    assert Batch(log, last, count)[0] == log[lo];
  }

  ghost function LastID(g: StreamID, batch: seq<Entry>): StreamID {
    if batch == [] then g else batch[|batch| - 1].id
  }

  ghost function Texts(es: seq<Entry>): set<string> {
    set e | e in es :: e.id.ToString()
  }

  lemma {:induction false} DeliverAllMoves(g: Group, consumer: string, now: int, batch: seq<Entry>)
    requires Increasing(batch) && forall i :: 0 <= i < |batch| ==> Rank(g.lastDeliveredID) < Rank(batch[i].id)
    ensures DeliverAll(g, consumer, now, batch).lastDeliveredID == LastID(g.lastDeliveredID, batch)
    decreases |batch|
  {
    if batch != [] {
      var g1 := Deliver(g, consumer, now, batch[0]);
      RankOrder(batch[0].id, g.lastDeliveredID);
      assert g1.lastDeliveredID == batch[0].id;
      DeliverAllMoves(g1, consumer, now, batch[1..]);
    }
  }

  lemma {:induction false} DeliverAllFiles(g: Group, consumer: string, now: int, batch: seq<Entry>)
    ensures DeliverAll(g, consumer, now, batch).pendingEntries.Keys == g.pendingEntries.Keys + Texts(batch)
    decreases |batch|
  {
    hide StreamID.ToString;
    hide StreamID.Compare;
    if batch != [] {
      var e := batch[0];
      var g1 := Deliver(g, consumer, now, e);
      assert g1.pendingEntries == g.pendingEntries[e.id.ToString() := PendingEntry(e.id, consumer, now, 1)];
      DeliverAllFiles(g1, consumer, now, batch[1..]);
      assert Texts(batch) == {e.id.ToString()} + Texts(batch[1..]) by {
        assert batch == [e] + batch[1..];
      }
    }
  }

  // ---- delivery is exact ----

  // Up to here everything behind the start was delivered once and in order.
  ghost predicate Exact(s: State, start: StreamID) {
    && Increasing(s.log)
    && s.got == Between(s.log, start, s.group.lastDeliveredID)
    && s.group.lastDeliveredID == LastID(start, s.got)
  }

  // Something was delivered that lies before the start or does not follow its predecessor.
  ghost predicate Repeats(got: seq<Entry>, start: StreamID) {
    || (exists i :: 0 <= i < |got| && Rank(got[i].id) <= Rank(start))
    || (exists i, j :: 0 <= i < j < |got| && Rank(got[i].id) >= Rank(got[j].id))
  }

  lemma {:induction false} RanksIncrease(es: seq<Entry>, lo: int, hi: int)
    requires Increasing(es)
    ensures Increasing(WithRanks(es, lo, hi))
  {
    if es != [] {
      RanksIncrease(es[1..], lo, hi);
      RankMembers(es[1..], lo, hi);
      var rest := WithRanks(es[1..], lo, hi);
      forall i | 0 <= i < |rest| ensures Rank(es[0].id) < Rank(rest[i].id) {
        assert rest[i] in es[1..];
      }
    }
  }

  lemma RepeatsIsWrong(log: seq<Entry>, got: seq<Entry>, start: StreamID, last: StreamID)
    requires Increasing(log) && Repeats(got, start)
    ensures got != Between(log, start, last)
  {
    var right := Between(log, start, last);
    RanksIncrease(log, Rank(start) + 1, Rank(last));
    RankMembers(log, Rank(start) + 1, Rank(last));
    assert forall i :: 0 <= i < |right| ==> right[i] in right;
  }

  lemma RepeatsStays(got: seq<Entry>, more: seq<Entry>, start: StreamID)
    requires Repeats(got, start)
    ensures Repeats(got + more, start)
  {
    var all := got + more;
    if i :| 0 <= i < |got| && Rank(got[i].id) <= Rank(start) {
      assert Rank(all[i].id) <= Rank(start);
    } else {
      var i, j :| 0 <= i < j < |got| && Rank(got[i].id) >= Rank(got[j].id);
      assert Rank(all[i].id) >= Rank(all[j].id);
    }
  }

  lemma LogStaysIncreasing(s: State, e: Event)
    requires Increasing(s.log)
    ensures Increasing(Step(s, e).log)
  {
    if e.Append? {
      AboveLast(s.log, e.entry.id);
    }
  }

  lemma ExactAppend(s: State, start: StreamID, entry: Entry)
    requires Exact(s, start)
    ensures Exact(Step(s, Append(entry)), start)
  {
    AboveLast(s.log, entry.id);
    if Step(s, Append(entry)) != s {
      BetweenKeeps(s.log, start, s.group.lastDeliveredID, s.got, entry);
    }
  }

  lemma BetweenKeeps(log: seq<Entry>, start: StreamID, last: StreamID, got: seq<Entry>, entry: Entry)
    requires got == Between(log, start, last) && last == LastID(start, got)
    requires forall i :: 0 <= i < |log| ==> Rank(log[i].id) < Rank(entry.id)
    ensures Between(log + [entry], start, last) == got
  {
    hide Rank;
    RankConcat(log, [entry], Rank(start) + 1, Rank(last));
    RankMembers(log, Rank(start) + 1, Rank(last));
    if got != [] {
      assert got[|got| - 1] in got;
    }
    RankNone([entry], Rank(start) + 1, Rank(last));
  }

  lemma ExactRead(s: State, start: StreamID, e: Event)
    requires Exact(s, start) && e.Read? && ReadGuard(s.log, s.group.lastDeliveredID)
    ensures Exact(Step(s, e), start)
  {
    hide Batch;
    hide Between;
    hide FirstFrom;
    hide Rank;
    hide StreamID.NextSeq;
    hide DeliverAll;
    var last := s.group.lastDeliveredID;
    var batch := Batch(s.log, last, e.count);
    var lo := FirstFrom(s.log, last.NextSeq());
    GuardedBatch(s.log, last, e.count);
    GuardedCut(s.log, last);
    DeliverAllMoves(Seen(s.group, e.consumer, e.seen), e.consumer, e.now, batch);
    GotSlice(s, start);
    SliceGrows(s.log, start, last, lo - |s.got|, lo, |batch|);
  }

  // When the entries between two IDs end at position lo, the next n entries continue them.
  lemma SliceGrows(log: seq<Entry>, start: StreamID, last: StreamID, from: nat, lo: nat, n: nat)
    requires Increasing(log) && from <= lo && lo + n <= |log| && Rank(start) <= Rank(last)
    requires forall i :: 0 <= i < |log| ==> (Rank(log[i].id) <= Rank(last) <==> i < lo)
    requires forall i :: 0 <= i < lo ==> (Rank(start) < Rank(log[i].id) <==> from <= i)
    ensures Between(log, start, LastID(last, log[lo..lo + n])) == log[from..lo] + log[lo..lo + n]
  {
    hide Rank;
    var next := LastID(last, log[lo..lo + n]);
    forall i | 0 <= i < |log| ensures Rank(start) + 1 <= Rank(log[i].id) <= Rank(next) <==> from <= i < lo + n {
      if n > 0 {
        assert next == log[lo + n - 1].id;
      }
    }
    RankSlice(log, Rank(start) + 1, Rank(next), from, lo + n);
    assert log[from..lo] + log[lo..lo + n] == log[from..lo + n];
  }

  // What was delivered is the stretch of the log that ends where the next read begins.
  lemma GotSlice(s: State, start: StreamID)
    requires Exact(s, start) && ReadGuard(s.log, s.group.lastDeliveredID)
    ensures var lo := FirstFrom(s.log, s.group.lastDeliveredID.NextSeq());
            && |s.got| <= lo && s.got == s.log[lo - |s.got|..lo]
            && (forall i :: 0 <= i < lo ==> (Rank(start) < Rank(s.log[i].id) <==> lo - |s.got| <= i))
            && Rank(start) <= Rank(s.group.lastDeliveredID)
  {
    var last := s.group.lastDeliveredID;
    var lo := FirstFrom(s.log, last.NextSeq());
    GuardedCut(s.log, last);
    RankMembers(s.log, Rank(start) + 1, Rank(last));
    if s.got != [] {
      assert s.got[|s.got| - 1] in s.got;
    }
    var from := CutAfter(s.log, start, lo);
    RankSlice(s.log, Rank(start) + 1, Rank(last), from, lo);
  }

  lemma {:induction false} CutAfter(log: seq<Entry>, start: StreamID, hi: nat) returns (from: nat)
    requires Increasing(log) && hi <= |log|
    ensures from <= hi && forall i :: 0 <= i < hi ==> (Rank(start) < Rank(log[i].id) <==> from <= i)
  {
    from := hi;
    while from > 0 && Rank(start) < Rank(log[from - 1].id)
      invariant from <= hi && forall i :: from <= i < hi ==> Rank(start) < Rank(log[i].id)
    {
      from := from - 1;
    }
  }

  lemma UnguardedRepeats(s: State, start: StreamID, e: Event)
    requires Exact(s, start) && e.Read? && !ReadGuard(s.log, s.group.lastDeliveredID)
    ensures Repeats(Step(s, e).got, start)
  {
    var batch := Batch(s.log, s.group.lastDeliveredID, e.count);
    UnguardedBatch(s.log, s.group.lastDeliveredID, e.count);
    var all, n := s.got + batch, |s.got|;
    assert all[n] == batch[0];
    if n > 0 {
      assert Rank(all[n - 1].id) >= Rank(all[n].id);
    }
  }

  lemma QuietStep(s: State, e: Event)
    requires !e.Append? && !e.Read? && !e.SetID?
    ensures Step(s, e).log == s.log && Step(s, e).got == s.got
    ensures Step(s, e).group.lastDeliveredID == s.group.lastDeliveredID
  {
    match e
    case Ack(ids) => AckAllQuiet(s.group, ids);
    case Claim(consumer, minIdle, ids, seen, now) =>
      ClaimAllQuiet(EnsureConsumer(s.group, consumer, seen), consumer, minIdle, now, ids);
    case Drop(_) =>
  }

  lemma {:induction false} AckAllQuiet(g: Group, ids: seq<string>)
    ensures AckAll(g, ids).lastDeliveredID == g.lastDeliveredID
    ensures AckAll(g, ids).pendingEntries.Keys == g.pendingEntries.Keys - Acknowledged(g, ids)
    decreases |ids|
  {
    if ids != [] {
      var g1 := AckOne(g, ids[0]);
      assert g1.pendingEntries == g.pendingEntries - {ids[0]};
      AckAllQuiet(g1, ids[1..]);
      assert ids == [ids[0]] + ids[1..];
    }
  }

  lemma {:induction false} ClaimAllQuiet(g: Group, consumer: string, minIdle: int, now: int, ids: seq<string>)
    ensures ClaimAll(g, consumer, minIdle, now, ids).lastDeliveredID == g.lastDeliveredID
    ensures ClaimAll(g, consumer, minIdle, now, ids).pendingEntries.Keys == g.pendingEntries.Keys
    decreases |ids|
  {
    if ids != [] {
      ClaimAllQuiet(ClaimOne(g, consumer, minIdle, now, ids[0]), consumer, minIdle, now, ids[1..]);
    }
  }

  lemma {:induction false} RepeatsForGood(s: State, start: StreamID, es: seq<Event>)
    requires Increasing(s.log) && Repeats(s.got, start) && NoSetID(es)
    ensures Increasing(Run(s, es).log) && Repeats(Run(s, es).got, start)
    decreases |es|
  {
    if es != [] {
      LogStaysIncreasing(s, es[0]);
      if es[0].Read? {
        RepeatsStays(s.got, Batch(s.log, s.group.lastDeliveredID, es[0].count), start);
      } else if !es[0].Append? {
        QuietStep(s, es[0]);
      }
      RepeatsForGood(Step(s, es[0]), start, es[1..]);
    }
  }

  lemma ExactStep(s: State, start: StreamID, e: Event)
    requires Exact(s, start) && !e.SetID? && (e.Read? ==> ReadGuard(s.log, s.group.lastDeliveredID))
    ensures Exact(Step(s, e), start)
  {
    if e.Read? {
      ExactRead(s, start, e);
    } else if e.Append? {
      ExactAppend(s, start, e.entry);
    } else {
      QuietStep(s, e);
    }
  }

  lemma {:induction false} ExactRun(s: State, start: StreamID, es: seq<Event>)
    requires Exact(s, start) && NoSetID(es)
    ensures Increasing(Run(s, es).log)
    ensures if Guarded(s, es) then Exact(Run(s, es), start) else Repeats(Run(s, es).got, start)
    decreases |es|
  {
    if es != [] {
      var e, s1 := es[0], Step(s, es[0]);
      LogStaysIncreasing(s, e);
      if e.Read? && !ReadGuard(s.log, s.group.lastDeliveredID) {
        UnguardedRepeats(s, start, e);
        RepeatsForGood(s1, start, es[1..]);
      } else {
        ExactStep(s, start, e);
        ExactRun(s1, start, es[1..]);
      }
    }
  }

  // Over any run without SETID, the batches in sequence are exactly the entries behind the start up to the
  // last delivered one, each once and in order, if and only if every read was guarded.
  lemma DeliveredExactlyOnce(log: seq<Entry>, name: string, start: StreamID, es: seq<Event>)
    requires Increasing(log) && NoSetID(es)
    ensures var s0 := Fresh(log, name, start);
            var s := Run(s0, es);
            s.got == Between(s.log, start, s.group.lastDeliveredID) <==> Guarded(s0, es)
  {
    var s0 := Fresh(log, name, start);
    RankNone(log, Rank(start) + 1, Rank(start));
    ExactRun(s0, start, es);
    if !Guarded(s0, es) {
      var s := Run(s0, es);
      RepeatsIsWrong(s.log, s.got, start, s.group.lastDeliveredID);
    }
  }

  // ---- delivered = acknowledged + pending ----

  ghost predicate Split(s: State) {
    s.acked + s.group.pendingEntries.Keys == Texts(s.got) && s.acked !! s.group.pendingEntries.Keys
  }

  lemma TextsConcat(a: seq<Entry>, b: seq<Entry>)
    ensures Texts(a + b) == Texts(a) + Texts(b)
  {
    assert forall e :: e in a + b <==> e in a || e in b;
  }

  // What comes after everything delivered so far is new.
  lemma TextsDisjoint(got: seq<Entry>, batch: seq<Entry>, last: StreamID)
    requires forall e :: e in got ==> Rank(e.id) <= Rank(last)
    requires forall e :: e in batch ==> Rank(last) < Rank(e.id)
    ensures Texts(got) !! Texts(batch)
  {
    forall t | t in Texts(got) && t in Texts(batch) ensures false {
      var a :| a in got && a.id.ToString() == t;
      var b :| b in batch && b.id.ToString() == t;
      TextInjective(a.id, b.id);
    }
  }

  lemma ExactBounds(s: State, start: StreamID)
    requires Exact(s, start)
    ensures forall e :: e in s.got ==> Rank(e.id) <= Rank(s.group.lastDeliveredID)
  {
    RankMembers(s.log, Rank(start) + 1, Rank(s.group.lastDeliveredID));
  }

  lemma SplitRead(s: State, start: StreamID, e: Event)
    requires Exact(s, start) && Split(s) && e.Read? && ReadGuard(s.log, s.group.lastDeliveredID)
    ensures Split(Step(s, e))
  {
    var batch := Batch(s.log, s.group.lastDeliveredID, e.count);
    GuardedBatch(s.log, s.group.lastDeliveredID, e.count);
    ExactBounds(s, start);
    forall b | b in batch ensures Rank(s.group.lastDeliveredID) < Rank(b.id) {
    }
    TextsDisjoint(s.got, batch, s.group.lastDeliveredID);
    TextsConcat(s.got, batch);
    DeliverAllFiles(Seen(s.group, e.consumer, e.seen), e.consumer, e.now, batch);
  }

  lemma SplitQuiet(s: State, e: Event)
    requires Split(s) && !e.Read?
    ensures Split(Step(s, e))
  {
    match e
    case Append(_) =>
    case Ack(ids) => AckAllQuiet(s.group, ids);
    case Claim(consumer, minIdle, ids, seen, now) =>
      ClaimAllQuiet(EnsureConsumer(s.group, consumer, seen), consumer, minIdle, now, ids);
    case Drop(consumer) => assert Released(s.group, consumer).pendingEntries.Keys == s.group.pendingEntries.Keys;
    case SetID(_) =>
  }

  lemma {:induction false} SplitRun(s: State, start: StreamID, es: seq<Event>)
    requires Exact(s, start) && Split(s) && NoSetID(es) && Guarded(s, es)
    ensures Split(Run(s, es))
    decreases |es|
  {
    if es != [] {
      var e := es[0];
      ExactStep(s, start, e);
      if e.Read? {
        SplitRead(s, start, e);
      } else {
        SplitQuiet(s, e);
      }
      SplitRun(Step(s, e), start, es[1..]);
    }
  }

  // Everything delivered is either acknowledged or pending, never both and never forgotten.
  lemma DeliveredIsAckedOrPending(log: seq<Entry>, name: string, start: StreamID, es: seq<Event>)
    requires Increasing(log) && NoSetID(es) && Guarded(Fresh(log, name, start), es)
    ensures var s := Run(Fresh(log, name, start), es);
            && s.acked + s.group.pendingEntries.Keys == Texts(s.got)
            && s.acked !! s.group.pendingEntries.Keys
  {
    RankNone(log, Rank(start) + 1, Rank(start));
    SplitRun(Fresh(log, name, start), start, es);
  }

  // ---- the counts ----

  // No pending entry lies behind the last delivered ID.
  ghost predicate PendingBelow(g: Group, id: StreamID) {
    forall k :: k in g.pendingEntries ==> Rank(g.pendingEntries[k].id) <= Rank(id)
  }

  // Reads do not wrap around, and SETID never goes below a pending entry.
  ghost predicate Careful(s: State, es: seq<Event>)
    decreases |es|
  {
    es == [] ||
    ((es[0].Read? ==> ReadGuard(s.log, s.group.lastDeliveredID)) &&
     (es[0].SetID? ==> PendingBelow(s.group, es[0].id)) &&
     Careful(Step(s, es[0]), es[1..]))
  }

  ghost predicate InOrder(s: State) {
    && Increasing(s.log) && Accounts(s.group) && Backed(s.group, s.log)
    && PendingBelow(s.group, s.group.lastDeliveredID)
  }

  lemma BatchIsFree(g: Group, batch: seq<Entry>)
    requires Filed(g) && PendingBelow(g, g.lastDeliveredID)
    requires forall i :: 0 <= i < |batch| ==> Rank(g.lastDeliveredID) < Rank(batch[i].id)
    ensures BatchFree(g, batch)
  {
    forall i | 0 <= i < |batch| ensures !StillOwned(g, batch[i]) {
      var k := batch[i].id.ToString();
      if k in g.pendingEntries {
        TextInjective(batch[i].id, g.pendingEntries[k].id);
      }
    }
  }

  lemma {:induction false} DeliverAllBelow(g: Group, consumer: string, now: int, batch: seq<Entry>, top: StreamID)
    requires PendingBelow(g, top) && forall i :: 0 <= i < |batch| ==> Rank(batch[i].id) <= Rank(top)
    ensures PendingBelow(DeliverAll(g, consumer, now, batch), top)
    decreases |batch|
  {
    hide Rank;
    hide StreamID.ToString;
    hide StreamID.Compare;
    if batch != [] {
      var e := batch[0];
      var g1 := Deliver(g, consumer, now, e);
      assert g1.pendingEntries == g.pendingEntries[e.id.ToString() := PendingEntry(e.id, consumer, now, 1)];
      DeliverAllBelow(g1, consumer, now, batch[1..], top);
    }
  }

  lemma OrderRead(s: State, e: Event)
    requires InOrder(s) && e.Read? && ReadGuard(s.log, s.group.lastDeliveredID)
    ensures InOrder(Step(s, e))
  {
    hide Accounts;
    hide Rank;
    hide FirstFrom;
    hide Batch;
    hide Deliver;
    hide DeliverAll;
    var last := s.group.lastDeliveredID;
    var batch := Batch(s.log, last, e.count);
    var g := Seen(s.group, e.consumer, e.seen);
    GuardedBatch(s.log, last, e.count);
    SeenKeeps(s.group, e.consumer, e.seen);
    BatchIsFree(g, batch);
    DeliverAllKeeps(g, e.consumer, e.now, batch);
    DeliveredBacked(g, s.log, e.consumer, e.now, batch);
    DeliverAllMoves(g, e.consumer, e.now, batch);
    DeliverAllBelow(g, e.consumer, e.now, batch, LastID(last, batch));
  }

  lemma EnsureKeeps(g: Group, consumer: string, now: int)
    requires Accounts(g)
    ensures Accounts(EnsureConsumer(g, consumer, now)) && consumer in EnsureConsumer(g, consumer, now).consumers
  {
    var g1 := EnsureConsumer(g, consumer, now);
    forall c ensures Owned(g1, c) == Owned(g, c) {
    }
    if consumer !in g.consumers && consumer != "" {
      assert Owned(g, consumer) == {};
    }
  }

  // The pending IDs are among those of before, under the same keys.
  lemma FewerPending(g: Group, g1: Group, log: seq<Entry>)
    requires Backed(g, log) && PendingBelow(g, g.lastDeliveredID) && g1.lastDeliveredID == g.lastDeliveredID
    requires forall k :: k in g1.pendingEntries ==>
               k in g.pendingEntries && g1.pendingEntries[k].id == g.pendingEntries[k].id
    ensures Backed(g1, log) && PendingBelow(g1, g1.lastDeliveredID)
  {
  }

  lemma OrderQuiet(s: State, e: Event)
    requires InOrder(s) && !e.Read? && (e.SetID? ==> PendingBelow(s.group, e.id))
    ensures InOrder(Step(s, e))
  {
    var g := s.group;
    match e
    case Append(entry) =>
      LogStaysIncreasing(s, e);
      MoreBacked(map["" := g], s.log, entry);
      assert Backed(map["" := g][""], s.log + [entry]);
    case Ack(ids) =>
      AckAllKeeps(g, ids);
      FewerPending(g, AckAll(g, ids), s.log);
    case Claim(consumer, minIdle, ids, seen, now) =>
      EnsureKeeps(g, consumer, seen);
      ClaimAllKeeps(EnsureConsumer(g, consumer, seen), consumer, minIdle, now, ids);
      FewerPending(g, ClaimAll(EnsureConsumer(g, consumer, seen), consumer, minIdle, now, ids), s.log);
    case Drop(consumer) =>
      ReleasedKeeps(g, consumer);
      FewerPending(g, Released(g, consumer), s.log);
    case SetID(id) =>
  }

  lemma {:induction false} OrderRun(s: State, es: seq<Event>)
    requires InOrder(s) && Careful(s, es)
    ensures InOrder(Run(s, es))
    decreases |es|
  {
    if es != [] {
      if es[0].Read? {
        OrderRead(s, es[0]);
      } else {
        OrderQuiet(s, es[0]);
      }
      OrderRun(Step(s, es[0]), es[1..]);
    }
  }

  // Over any careful run, SETID included, every consumer's count is the number of its pending entries, the
  // counts and the orphans add up to the pending list, and the log holds every pending entry.
  lemma CountsStayRight(log: seq<Entry>, name: string, start: StreamID, es: seq<Event>)
    requires Increasing(log) && Careful(Fresh(log, name, start), es)
    ensures var s := Run(Fresh(log, name, start), es);
            && Accounts(s.group) && Backed(s.group, s.log)
            && TotalCount(s.group, s.group.consumers.Keys - {""}) + |Owned(s.group, "")| == |s.group.pendingEntries|
  {
    OrderRun(Fresh(log, name, start), es);
    AccountsAddUp(Run(Fresh(log, name, start), es).group);
  }

  // The harm an unguarded read does: the same entry is delivered twice.
  lemma WrapRepeats()
    ensures var e := Entry(StreamID(7, TWO_64 - 1), map[]);
            var read := Read("c", 0, 0, 0);
            Run(Fresh([e], "g", StreamID(0, 0)), [read, read]).got == [e, e]
  {
    var e := Entry(StreamID(7, TWO_64 - 1), map[]);
    var read := Read("c", 0, 0, 0);
    var s0 := Fresh([e], "g", StreamID(0, 0));
    assert Batch([e], StreamID(0, 0), 0) == [e];
    var s1 := Step(s0, read);
    DeliverAllMoves(Seen(s0.group, "c", 0), "c", 0, [e]);
    assert s1.group.lastDeliveredID == e.id && e.id.NextSeq() == StreamID(7, 0);
    assert Batch([e], e.id, 0) == [e];
    assert [read, read][1..] == [read] && [read][1..] == [];
    assert Run(s0, [read, read]) == Run(s1, [read]) == Step(s1, read);
  }

  // ---- exactly when the counts are right ----

  ghost predicate AlwaysRight(s: State, es: seq<Event>)
    decreases |es|
  {
    Accounts(s.group) && (es == [] || AlwaysRight(Step(s, es[0]), es[1..]))
  }

  // No read delivers an entry that is pending with an owner.
  ghost predicate FreeReads(s: State, es: seq<Event>)
    decreases |es|
  {
    es == [] ||
    ((es[0].Read? ==> BatchFree(s.group, Batch(s.log, s.group.lastDeliveredID, es[0].count))) &&
     FreeReads(Step(s, es[0]), es[1..]))
  }

  lemma StepRight(s: State, e: Event)
    requires Increasing(s.log) && Accounts(s.group)
    ensures Accounts(Step(s, e).group) <==>
            (e.Read? ==> BatchFree(s.group, Batch(s.log, s.group.lastDeliveredID, e.count)))
  {
    hide Batch;
    hide Accounts;
    match e
    case Append(_) =>
    case Read(consumer, count, seen, now) => ReadRight(s, consumer, count, seen, now);
    case Ack(ids) => AckAllKeeps(s.group, ids);
    case Claim(consumer, minIdle, ids, seen, now) =>
      EnsureKeeps(s.group, consumer, seen);
      ClaimAllKeeps(EnsureConsumer(s.group, consumer, seen), consumer, minIdle, now, ids);
    case Drop(consumer) => ReleasedKeeps(s.group, consumer);
    case SetID(id) => SameAccounts(s.group, id);
  }

  lemma SameAccounts(g: Group, id: StreamID)
    requires Accounts(g)
    ensures Accounts(g.(lastDeliveredID := id))
  {
    forall c ensures Owned(g.(lastDeliveredID := id), c) == Owned(g, c) {
    }
  }

  lemma ReadRight(s: State, consumer: string, count: int, seen: int, now: int)
    requires Increasing(s.log) && Accounts(s.group)
    ensures var batch := Batch(s.log, s.group.lastDeliveredID, count);
            Accounts(DeliverAll(Seen(s.group, consumer, seen), consumer, now, batch)) <==> BatchFree(s.group, batch)
  {
    var batch := Batch(s.log, s.group.lastDeliveredID, count);
    var g := Seen(s.group, consumer, seen);
    SeenKeeps(s.group, consumer, seen);
    BatchDistinct(s.log, s.group.lastDeliveredID, count);
    hide Batch;
    DeliverAllKeeps(g, consumer, now, batch);
    assert g.pendingEntries == s.group.pendingEntries;
    assert BatchFree(g, batch) <==> BatchFree(s.group, batch);
  }

  lemma BatchDistinct(log: seq<Entry>, last: StreamID, count: int)
    requires Increasing(log)
    ensures DistinctIds(Batch(log, last, count))
  {
    var batch := Batch(log, last, count);
    var lo := FirstFrom(log, last.NextSeq());
    forall i, j | 0 <= i < j < |batch| ensures batch[i].id != batch[j].id {
      assert Rank(log[lo + i].id) < Rank(log[lo + j].id);
    }
  }

  // Over any run, SETID included, the counts are right all the way if and only if no read delivers an entry
  // that is still pending with an owner.
  lemma {:induction false} CountsRightExactly(s: State, es: seq<Event>)
    requires Increasing(s.log) && Accounts(s.group)
    ensures AlwaysRight(s, es) <==> FreeReads(s, es)
    decreases |es|
  {
    hide Accounts;
    hide BatchFree;
    hide Batch;
    hide Step;
    if es != [] {
      StepRight(s, es[0]);
      LogStaysIncreasing(s, es[0]);
      if Accounts(Step(s, es[0]).group) {
        CountsRightExactly(Step(s, es[0]), es[1..]);
      } else {
        assert !AlwaysRight(Step(s, es[0]), es[1..]);
      }
    }
  }

  // The harm that SETID below a pending entry does: the entry is delivered and counted again.
  lemma RewindSpoilsCounts()
    ensures var e := Entry(StreamID(7, 0), map[]);
            var read := Read("c", 0, 0, 0);
            var g := Run(Fresh([e], "g", StreamID(0, 0)), [read, SetID(StreamID(0, 0)), read]).group;
            "c" in g.consumers && g.consumers["c"].pendingEntriesNum == 2 && |Owned(g, "c")| == 1 && !CountsAgree(g)
  {
    var e := Entry(StreamID(7, 0), map[]);
    var read := Read("c", 0, 0, 0);
    var s0 := Fresh([e], "g", StreamID(0, 0));
    assert Batch([e], StreamID(0, 0), 0) == [e];
    var s1 := Step(s0, read);
    var s2 := Step(s1, SetID(StreamID(0, 0)));
    var s3 := Step(s2, read);
    OneDelivery(Seen(s0.group, "c", 0), "c", 0, e);
    OneDelivery(Seen(s2.group, "c", 0), "c", 0, e);
    var es := [read, SetID(StreamID(0, 0)), read];
    assert es[1..] == [SetID(StreamID(0, 0)), read] && es[1..][1..] == [read] && es[1..][1..][1..] == [];
    assert Run(s0, es) == Run(s1, es[1..]) == Run(s2, es[1..][1..]) == Run(s3, []);
    assert Owned(s3.group, "c") == {e.id.ToString()};
  }

  lemma OneDelivery(g: Group, consumer: string, now: int, e: Entry)
    requires consumer in g.consumers
    ensures var g1 := DeliverAll(g, consumer, now, [e]);
            && g1.pendingEntries == g.pendingEntries[e.id.ToString() := PendingEntry(e.id, consumer, now, 1)]
            && consumer in g1.consumers
            && g1.consumers[consumer].pendingEntriesNum == g.consumers[consumer].pendingEntriesNum + 1
  {
    assert [e][1..] == [];
  }

  // ---- the runs of the class ----

  // An order in which a field map can be iterated.
  method OrderOf(fields: map<Text, Text>) returns (order: seq<Text>)
    ensures Iterates(order, fields)
  {
    order := [];
    var todo := fields.Keys;
    while todo != {}
      invariant todo <= fields.Keys
      invariant forall i, j :: 0 <= i < j < |order| ==> order[i] != order[j]
      invariant forall k :: k in order <==> k in fields && k !in todo
      decreases |todo|
    {
      var k :| k in todo;
      order := order + [k];
      todo := todo - {k};
    }
  }

  // The bytes of an entry to be appended fit a Go slice.
  ghost predicate Fits(e: Event) {
    e.Append? ==> forall order | Iterates(order, e.entry.fields) :: |Encoded(e.entry, order)| < TWO_63
  }

  // The events as calls of a stream's methods: log, group and deliveries are those of the run.
  method Drive(st: Stream, name: string, es: seq<Event>) returns (got: seq<Entry>)
    requires st.Valid() && name in st.groups && forall i :: 0 <= i < |es| ==> Fits(es[i])
    modifies st, st.entries
    ensures st.Valid() && name in st.groups && st.entries == old(st.entries)
    ensures var s := Run(State(old(st.log), old(st.groups)[name], [], {}), es);
            st.log == s.log && st.groups[name] == s.group && got == s.got
  {
    hide Stream.Valid;
    hide Step;
    got := [];
    ghost var s := State(st.log, st.groups[name], [], {});
    ghost var s0 := s;
    for i := 0 to |es|
      invariant st.Valid() && name in st.groups && st.entries == old(st.entries)
      invariant st.log == s.log && st.groups[name] == s.group && got == s.got
      invariant Run(s, es[i..]) == Run(s0, es)
    {
      assert es[i..][0] == es[i] && es[i..][1..] == es[i + 1..];
      var batch := Call(st, name, es[i], s);
      got := got + batch;
      s := Step(s, es[i]);
    }
  }

  // One event as a call; the result is what it delivers.
  method Call(st: Stream, name: string, e: Event, ghost s: State) returns (batch: seq<Entry>)
    requires st.Valid() && name in st.groups && Fits(e) && st.log == s.log && st.groups[name] == s.group
    modifies st, st.entries
    ensures st.Valid() && name in st.groups && st.entries == old(st.entries)
    ensures var t := Step(s, e);
            st.log == t.log && st.groups[name] == t.group && t.got == s.got + batch
  {
    hide Stream.Valid;
    batch := [];
    assert s.got == s.got + batch;
    match e
    case Append(entry) =>
      var order := OrderOf(entry.fields);
      var _ := st.AppendEntry(entry, order);
    case Read(consumer, count, seen, now) =>
      var r := st.ReadGroupNewEntries(name, consumer, count, seen, now);
      batch := r.value;
    case Ack(ids) =>
      var _ := st.AckEntries(name, ids);
    case Claim(consumer, minIdle, ids, seen, now) =>
      var _ := st.ClaimEntries(name, consumer, minIdle, ids, seen, now);
    case Drop(consumer) =>
      var _ := st.DeleteConsumer(name, consumer);
    case SetID(id) =>
      TextRoundTrip(id);
      assert id.ToString() != "$" by {
        assert id.ToString()[0] == Decimal(id.ms)[0];
      }
      var _ := st.SetGroupID(name, id.ToString());
  }
}
