/** Consumer groups: delivery, acknowledgement, claims and the pending counts
    (internal/datastructure/stream.go:264-514). */
module Groups {
  import opened Bytes
  import opened StreamIDs
  import opened EntryCodec
  import opened StreamLogs
  import Orders

  datatype Consumer = Consumer(name: string, lastSeenTime: int, pendingEntriesNum: int)

  datatype PendingEntry = PendingEntry(id: StreamID, consumer: string, deliveredTime: int, deliveryCount: int)

  datatype Group = Group(name: string, lastDeliveredID: StreamID,
                         consumers: map<string, Consumer>, pendingEntries: map<string, PendingEntry>)

  // ---- what one step of each operation does to the group ----

  function Seen(g: Group, consumer: string, now: int): Group {
    if consumer in g.consumers then
      g.(consumers := g.consumers[consumer := g.consumers[consumer].(lastSeenTime := now)])
    else g.(consumers := g.consumers[consumer := Consumer(consumer, now, 0)])
  }

  // Adds to the pending count of a consumer, if there is such a consumer.
  function Counted(g: Group, consumer: string, n: int): Group {
    if consumer in g.consumers then
      var c := g.consumers[consumer];
      g.(consumers := g.consumers[consumer := c.(pendingEntriesNum := c.pendingEntriesNum + n)])
    else g
  }

  function Deliver(g: Group, consumer: string, now: int, e: Entry): Group {
    var g1 := g.(pendingEntries := g.pendingEntries[e.id.ToString() := PendingEntry(e.id, consumer, now, 1)]);
    var g2 := Counted(g1, consumer, 1);
    if e.id.Compare(g2.lastDeliveredID) > 0 then g2.(lastDeliveredID := e.id) else g2
  }

  ghost function DeliverAll(g: Group, consumer: string, now: int, batch: seq<Entry>): Group
    decreases |batch|
  {
    if batch == [] then g else DeliverAll(Deliver(g, consumer, now, batch[0]), consumer, now, batch[1..])
  }

  function AckOne(g: Group, id: string): Group {
    if id !in g.pendingEntries then g
    else
      var owner := g.pendingEntries[id].consumer;
      var g1 := if owner != "" then Counted(g, owner, -1) else g;
      g1.(pendingEntries := g1.pendingEntries - {id})
  }

  ghost function AckAll(g: Group, ids: seq<string>): Group
    decreases |ids|
  {
    if ids == [] then g else AckAll(AckOne(g, ids[0]), ids[1..])
  }

  predicate Claimable(g: Group, minIdle: int, now: int, id: string) {
    id in g.pendingEntries && now - g.pendingEntries[id].deliveredTime >= minIdle
  }

  function ClaimOne(g: Group, consumer: string, minIdle: int, now: int, id: string): Group {
    if !Claimable(g, minIdle, now, id) then g
    else
      var p := g.pendingEntries[id];
      var claimed := p.(consumer := consumer, deliveredTime := now, deliveryCount := p.deliveryCount + 1);
      var g1 := g.(pendingEntries := g.pendingEntries[id := claimed]);
      var g2 := if p.consumer != "" then Counted(g1, p.consumer, -1) else g1;
      Counted(g2, consumer, 1)
  }

  ghost function ClaimAll(g: Group, consumer: string, minIdle: int, now: int, ids: seq<string>): Group
    decreases |ids|
  {
    if ids == [] then g else ClaimAll(ClaimOne(g, consumer, minIdle, now, ids[0]), consumer, minIdle, now, ids[1..])
  }

  // The pending entries of a consumer lose their owner, then the consumer goes.
  ghost function Released(g: Group, consumer: string): Group {
    g.(pendingEntries := map k | k in g.pendingEntries ::
         if g.pendingEntries[k].consumer == consumer then g.pendingEntries[k].(consumer := "") else g.pendingEntries[k],
       consumers := g.consumers - {consumer})
  }

  // ---- the accounts ----

  ghost function Owned(g: Group, consumer: string): set<string> {
    set k | k in g.pendingEntries && g.pendingEntries[k].consumer == consumer
  }

  // Pending entries are filed under their own ID.
  ghost predicate Filed(g: Group) {
    forall k :: k in g.pendingEntries ==> k == g.pendingEntries[k].id.ToString()
  }

  ghost predicate OwnersExist(g: Group) {
    forall k :: k in g.pendingEntries && g.pendingEntries[k].consumer != ""
           ==> g.pendingEntries[k].consumer in g.consumers
  }

  ghost predicate CountsAgree(g: Group) {
    forall c :: c in g.consumers && c != "" ==> g.consumers[c].pendingEntriesNum == |Owned(g, c)|
  }

  // Every count is right, every owner exists.  The empty name is not an owner: it marks an orphan.
  ghost predicate Accounts(g: Group) { Filed(g) && OwnersExist(g) && CountsAgree(g) }

  lemma SeenKeeps(g: Group, consumer: string, now: int)
    requires Accounts(g)
    ensures Accounts(Seen(g, consumer, now)) && consumer in Seen(g, consumer, now).consumers
  {
    var g1 := Seen(g, consumer, now);
    forall c ensures Owned(g1, c) == Owned(g, c) {
    }
    if consumer !in g.consumers && consumer != "" {
      assert Owned(g, consumer) == {};
    }
  }

  // Delivering an entry spoils the accounts exactly when the entry is still pending with an owner.
  ghost predicate StillOwned(g: Group, e: Entry) {
    e.id.ToString() in g.pendingEntries && g.pendingEntries[e.id.ToString()].consumer != ""
  }

  lemma OwnedAfterDeliver(g: Group, consumer: string, now: int, e: Entry, c: string)
    ensures Owned(Deliver(g, consumer, now, e), c)
         == if c == consumer then Owned(g, c) + {e.id.ToString()} else Owned(g, c) - {e.id.ToString()}
  {
    var g1 := Deliver(g, consumer, now, e);
    assert g1.pendingEntries == g.pendingEntries[e.id.ToString() := PendingEntry(e.id, consumer, now, 1)];
  }

  // No entry of the batch is pending with an owner.
  ghost predicate BatchFree(g: Group, batch: seq<Entry>) {
    forall i :: 0 <= i < |batch| ==> !StillOwned(g, batch[i])
  }

  ghost predicate DistinctIds(batch: seq<Entry>) {
    forall i, j :: 0 <= i < j < |batch| ==> batch[i].id != batch[j].id
  }

  // Some count is too high, and none is too low.
  ghost predicate Overcounted(g: Group) {
    && (forall c :: c in g.consumers && c != "" ==> g.consumers[c].pendingEntriesNum >= |Owned(g, c)|)
    && (exists c :: c in g.consumers && c != "" && g.consumers[c].pendingEntriesNum > |Owned(g, c)|)
  }

  lemma Sizes<T>(s: set<T>, k: T)
    ensures |s + {k}| == if k in s then |s| else |s| + 1
    ensures |s - {k}| == if k in s then |s| - 1 else |s|
  {
    if k in s {
      assert s + {k} == s;
    } else {
      assert s - {k} == s;
    }
  }

  // How far a count is above the truth after a delivery.
  lemma ExcessAfterDeliver(g: Group, consumer: string, now: int, e: Entry, c: string)
    requires consumer in g.consumers && c in g.consumers
    ensures var g1, k := Deliver(g, consumer, now, e), e.id.ToString();
            && g1.consumers.Keys == g.consumers.Keys
            && g1.consumers[c].pendingEntriesNum - |Owned(g1, c)|
               == g.consumers[c].pendingEntriesNum - |Owned(g, c)| + if k in Owned(g, c) then 1 else 0
  {
    OwnedAfterDeliver(g, consumer, now, e, c);
    Sizes(Owned(g, c), e.id.ToString());
  }

  lemma DeliverShape(g: Group, consumer: string, now: int, e: Entry)
    requires Filed(g) && OwnersExist(g) && consumer in g.consumers
    ensures Filed(Deliver(g, consumer, now, e)) && OwnersExist(Deliver(g, consumer, now, e))
  {
    hide StreamID.ToString;
    hide StreamID.Compare;
  }

  lemma DeliverKeeps(g: Group, consumer: string, now: int, e: Entry)
    requires Accounts(g) && consumer in g.consumers
    ensures Accounts(Deliver(g, consumer, now, e)) <==> !StillOwned(g, e)
  {
    hide Deliver;
    var g1, k := Deliver(g, consumer, now, e), e.id.ToString();
    DeliverShape(g, consumer, now, e);
    ExcessAfterDeliver(g, consumer, now, e, consumer);
    if StillOwned(g, e) {
      var owner := g.pendingEntries[k].consumer;
      assert k in Owned(g, owner);
      ExcessAfterDeliver(g, consumer, now, e, owner);
    } else {
      forall c | c in g1.consumers && c != "" ensures g1.consumers[c].pendingEntriesNum == |Owned(g1, c)| {
        ExcessAfterDeliver(g, consumer, now, e, c);
      }
    }
  }

  lemma OvercountStays(g: Group, consumer: string, now: int, e: Entry)
    requires consumer in g.consumers
    requires Overcounted(g) || (Accounts(g) && StillOwned(g, e))
    ensures Overcounted(Deliver(g, consumer, now, e))
  {
    hide Deliver;
    var g1, k := Deliver(g, consumer, now, e), e.id.ToString();
    ExcessAfterDeliver(g, consumer, now, e, consumer);
    var c :| c in g.consumers && c != "" &&
      (g.consumers[c].pendingEntriesNum > |Owned(g, c)| || (Accounts(g) && k in Owned(g, c)));
    ExcessAfterDeliver(g, consumer, now, e, c);
    forall c | c in g1.consumers && c != "" ensures g1.consumers[c].pendingEntriesNum >= |Owned(g1, c)| {
      ExcessAfterDeliver(g, consumer, now, e, c);
    }
  }

  lemma {:induction false} OvercountStaysAll(g: Group, consumer: string, now: int, batch: seq<Entry>)
    requires consumer in g.consumers && Overcounted(g)
    ensures Overcounted(DeliverAll(g, consumer, now, batch))
    decreases |batch|
  {
    if batch != [] {
      OvercountStays(g, consumer, now, batch[0]);
      OvercountStaysAll(Deliver(g, consumer, now, batch[0]), consumer, now, batch[1..]);
    }
  }

  lemma {:induction false} DeliverAllKeeps(g: Group, consumer: string, now: int, batch: seq<Entry>)
    requires Accounts(g) && consumer in g.consumers && DistinctIds(batch)
    ensures Accounts(DeliverAll(g, consumer, now, batch)) <==> BatchFree(g, batch)
    decreases |batch|
  {
    if batch != [] {
      var g1 := Deliver(g, consumer, now, batch[0]);
      DeliverKeeps(g, consumer, now, batch[0]);
      if StillOwned(g, batch[0]) {
        OvercountStays(g, consumer, now, batch[0]);
        OvercountStaysAll(g1, consumer, now, batch[1..]);
      } else {
        DeliverAllKeeps(g1, consumer, now, batch[1..]);
        forall i | 0 <= i < |batch[1..]| ensures StillOwned(g1, batch[1..][i]) <==> StillOwned(g, batch[i + 1]) {
          if batch[i + 1].id.ToString() == batch[0].id.ToString() {
            TextInjective(batch[i + 1].id, batch[0].id);
          }
        }
        assert BatchFree(g1, batch[1..]) <==> BatchFree(g, batch);
      }
    }
  }

  lemma ExcessAfterAck(g: Group, id: string, c: string)
    requires Accounts(g) && c in g.consumers && c != ""
    ensures var g1 := AckOne(g, id);
            && g1.consumers.Keys == g.consumers.Keys
            && g1.consumers[c].pendingEntriesNum - |Owned(g1, c)| == g.consumers[c].pendingEntriesNum - |Owned(g, c)|
  {
    if id in g.pendingEntries {
      OwnedAfterAck(g, id, c);
      Sizes(Owned(g, c), id);
    }
  }

  lemma OwnedAfterAck(g: Group, id: string, c: string)
    requires id in g.pendingEntries
    ensures Owned(AckOne(g, id), c) == Owned(g, c) - {id}
  {
    assert AckOne(g, id).pendingEntries == g.pendingEntries - {id};
  }

  lemma AckOneKeeps(g: Group, id: string)
    requires Accounts(g)
    ensures Accounts(AckOne(g, id)) && AckOne(g, id).pendingEntries == g.pendingEntries - {id}
    ensures AckOne(g, id).consumers.Keys == g.consumers.Keys && AckOne(g, id).lastDeliveredID == g.lastDeliveredID
  {
    hide Owned;
    var g1 := AckOne(g, id);
    if id in g.pendingEntries {
      forall c | c in g1.consumers && c != "" ensures g1.consumers[c].pendingEntriesNum == |Owned(g1, c)| {
        ExcessAfterAck(g, id, c);
      }
    }
  }

  lemma {:induction false} AckAllKeeps(g: Group, ids: seq<string>)
    requires Accounts(g)
    ensures Accounts(AckAll(g, ids)) && AckAll(g, ids).lastDeliveredID == g.lastDeliveredID
    ensures AckAll(g, ids).pendingEntries == g.pendingEntries - (set k | k in ids)
    decreases |ids|
  {
    if ids != [] {
      AckOneKeeps(g, ids[0]);
      AckAllKeeps(AckOne(g, ids[0]), ids[1..]);
      assert (set k | k in ids) == {ids[0]} + (set k | k in ids[1..]);
    }
  }

  lemma OwnedAfterClaim(g: Group, consumer: string, minIdle: int, now: int, id: string, c: string)
    requires Claimable(g, minIdle, now, id)
    ensures Owned(ClaimOne(g, consumer, minIdle, now, id), c)
         == if c == consumer then Owned(g, c) + {id} else Owned(g, c) - {id}
  {
  }

  lemma ExcessAfterClaim(g: Group, consumer: string, minIdle: int, now: int, id: string, c: string)
    requires Claimable(g, minIdle, now, id) && consumer in g.consumers && c in g.consumers && c != ""
    ensures var g1 := ClaimOne(g, consumer, minIdle, now, id);
            && g1.consumers.Keys == g.consumers.Keys
            && g1.consumers[c].pendingEntriesNum - |Owned(g1, c)| == g.consumers[c].pendingEntriesNum - |Owned(g, c)|
  {
    OwnedAfterClaim(g, consumer, minIdle, now, id, c);
    Sizes(Owned(g, c), id);
    CountAfterClaim(g, consumer, minIdle, now, id, c);
  }

  lemma CountAfterClaim(g: Group, consumer: string, minIdle: int, now: int, id: string, c: string)
    requires Claimable(g, minIdle, now, id) && consumer in g.consumers && c in g.consumers && c != ""
    ensures var g1 := ClaimOne(g, consumer, minIdle, now, id);
            && g1.consumers.Keys == g.consumers.Keys
            && g1.consumers[c].pendingEntriesNum
               == g.consumers[c].pendingEntriesNum - (if id in Owned(g, c) then 1 else 0)
                  + if c == consumer then 1 else 0
  {
  }

  // A claim changes owners and times; it neither creates nor loses an entry.
  lemma ClaimOneKeeps(g: Group, consumer: string, minIdle: int, now: int, id: string)
    requires Accounts(g) && consumer in g.consumers
    ensures var g1 := ClaimOne(g, consumer, minIdle, now, id);
            && Accounts(g1) && g1.pendingEntries.Keys == g.pendingEntries.Keys && consumer in g1.consumers
            && (forall k :: k in g.pendingEntries ==> g1.pendingEntries[k].id == g.pendingEntries[k].id)
            && g1.lastDeliveredID == g.lastDeliveredID
  {
    var g1 := ClaimOne(g, consumer, minIdle, now, id);
    if Claimable(g, minIdle, now, id) {
      forall c | c in g1.consumers && c != "" ensures g1.consumers[c].pendingEntriesNum == |Owned(g1, c)| {
        ExcessAfterClaim(g, consumer, minIdle, now, id, c);
      }
    }
  }

  lemma {:induction false} ClaimAllKeeps(g: Group, consumer: string, minIdle: int, now: int, ids: seq<string>)
    requires Accounts(g) && consumer in g.consumers
    ensures var g1 := ClaimAll(g, consumer, minIdle, now, ids);
            && Accounts(g1) && g1.pendingEntries.Keys == g.pendingEntries.Keys
            && (forall k :: k in g.pendingEntries ==> g1.pendingEntries[k].id == g.pendingEntries[k].id)
            && g1.lastDeliveredID == g.lastDeliveredID
    decreases |ids|
  {
    if ids != [] {
      ClaimOneKeeps(g, consumer, minIdle, now, ids[0]);
      ClaimAllKeeps(ClaimOne(g, consumer, minIdle, now, ids[0]), consumer, minIdle, now, ids[1..]);
    }
  }

  lemma ReleasedKeeps(g: Group, consumer: string)
    requires Accounts(g)
    ensures Accounts(Released(g, consumer)) && Released(g, consumer).pendingEntries.Keys == g.pendingEntries.Keys
    ensures forall k :: k in g.pendingEntries ==> Released(g, consumer).pendingEntries[k].id == g.pendingEntries[k].id
    ensures Released(g, consumer).lastDeliveredID == g.lastDeliveredID
  {
    var g1 := Released(g, consumer);
    forall c | c != "" && c != consumer ensures Owned(g1, c) == Owned(g, c) {
    }
  }

  // ---- the sum of the accounts ----

  ghost function OwnedByAny(g: Group, names: set<string>): set<string> {
    set k | k in g.pendingEntries && g.pendingEntries[k].consumer in names
  }

  ghost function TotalCount(g: Group, names: set<string>): int
    requires names <= g.consumers.Keys
  {
    if names == {} then 0
    else var c :| c in names; g.consumers[c].pendingEntriesNum + TotalCount(g, names - {c})
  }

  lemma SplitOwner(g: Group, names: set<string>, c: string)
    requires c in names
    ensures |OwnedByAny(g, names)| == |OwnedByAny(g, names - {c})| + |Owned(g, c)|
  {
    var rest, own := OwnedByAny(g, names - {c}), Owned(g, c);
    assert OwnedByAny(g, names) == rest + own;
    assert rest !! own;
  }

  lemma {:induction false} TotalIsOwned(g: Group, names: set<string>)
    requires Accounts(g) && names <= g.consumers.Keys && "" !in names
    ensures TotalCount(g, names) == |OwnedByAny(g, names)|
    decreases names
  {
    hide Owned;
    if names == {} {
      assert OwnedByAny(g, names) == {};
    } else {
      var c :| c in names && TotalCount(g, names) == g.consumers[c].pendingEntriesNum + TotalCount(g, names - {c});
      TotalIsOwned(g, names - {c});
      SplitOwner(g, names, c);
    }
  }

  lemma OwnersAndOrphans(g: Group)
    requires OwnersExist(g)
    ensures |OwnedByAny(g, g.consumers.Keys - {""})| + |Owned(g, "")| == |g.pendingEntries|
  {
    var names := g.consumers.Keys - {""};
    assert g.pendingEntries.Keys == OwnedByAny(g, names) + Owned(g, "");
    assert OwnedByAny(g, names) !! Owned(g, "");
    assert |g.pendingEntries.Keys| == |g.pendingEntries|;
  }

  // The counts of the named consumers and the orphans add up to the pending list.
  lemma AccountsAddUp(g: Group)
    requires Accounts(g)
    ensures TotalCount(g, g.consumers.Keys - {""}) + |Owned(g, "")| == |g.pendingEntries|
  {
    var names := g.consumers.Keys - {""};
    TotalIsOwned(g, names);
    OwnersAndOrphans(g);
  }

  // ---- the loops ----

  // Files the batch under the consumer and moves the group on.
  method DeliverBatch(g: Group, consumer: string, now: int, batch: seq<Entry>) returns (group: Group)
    requires consumer in g.consumers
    ensures group == DeliverAll(g, consumer, now, batch)
  {
    hide StreamID.ToString;
    hide StreamID.Compare;
    group := g;
    for i := 0 to |batch|
      invariant consumer in group.consumers
      invariant DeliverAll(group, consumer, now, batch[i..]) == DeliverAll(g, consumer, now, batch)
    {
      ghost var before := group;
      var entry := batch[i];
      var pending := PendingEntry(entry.id, consumer, now, 1);
      group := group.(pendingEntries := group.pendingEntries[entry.id.ToString() := pending]);
      var c := group.consumers[consumer];
      group := group.(consumers := group.consumers[consumer := c.(pendingEntriesNum := c.pendingEntriesNum + 1)]);
      if entry.id.Compare(group.lastDeliveredID) > 0 {
        group := group.(lastDeliveredID := entry.id);
      }
      assert group == Deliver(before, consumer, now, entry);
      assert batch[i..][0] == entry && batch[i..][1..] == batch[i + 1..];
    }
  }

  // Also the number of entries that were pending.
  method AckBatch(g: Group, ids: seq<string>) returns (group: Group, acked: int)
    ensures group == AckAll(g, ids)
    ensures acked == |g.pendingEntries| - |group.pendingEntries|
  {
    hide AckAll;
    AckNone(g, ids);
    group, acked := g, 0;
    for i := 0 to |ids|
      invariant AckAll(group, ids[i..]) == AckAll(g, ids)
      invariant acked == |g.pendingEntries| - |group.pendingEntries|
    {
      ghost var before := group;
      AckNext(group, ids, i);
      if ids[i] in group.pendingEntries {
        var pending := group.pendingEntries[ids[i]];
        if pending.consumer != "" && pending.consumer in group.consumers {
          var c := group.consumers[pending.consumer];
          c := c.(pendingEntriesNum := c.pendingEntriesNum - 1);
          group := group.(consumers := group.consumers[pending.consumer := c]);
        }
        Orders.OneLess(group.pendingEntries, ids[i]);
        group := group.(pendingEntries := group.pendingEntries - {ids[i]});
        acked := acked + 1;
      }
      assert group == AckOne(before, ids[i]);
    }
  }

  lemma AckNone(g: Group, ids: seq<string>)
    ensures AckAll(g, ids[0..]) == AckAll(g, ids)
    ensures forall h :: AckAll(h, ids[|ids|..]) == h
  {
    assert ids[0..] == ids && ids[|ids|..] == [];
  }

  lemma AckNext(g: Group, ids: seq<string>, i: nat)
    requires i < |ids|
    ensures AckAll(g, ids[i..]) == AckAll(AckOne(g, ids[i]), ids[i + 1..])
  {
    assert ids[i..][0] == ids[i] && ids[i..][1..] == ids[i + 1..];
  }

  // Also the number of entries that lost their owner.
  method Release(g: Group, consumer: string) returns (group: Group, count: int)
    ensures group == Released(g, consumer)
    ensures count == |Owned(g, consumer)|
  {
    count := 0;
    var pendings := g.pendingEntries;
    var todo := g.pendingEntries.Keys;
    ghost var done: set<string> := {};
    while todo != {}
      invariant todo <= g.pendingEntries.Keys
      invariant forall k :: k in done <==> k in Owned(g, consumer) && k !in todo
      invariant Unowned(pendings, g, consumer, done)
      invariant count == |done|
      decreases |todo|
    {
      var k :| k in todo;
      if pendings[k].consumer == consumer {
        count := count + 1;
        pendings := pendings[k := pendings[k].(consumer := "")];
        done := done + {k};
      }
      todo := todo - {k};
    }
    assert done == Owned(g, consumer);
    group := g.(pendingEntries := pendings, consumers := g.consumers - {consumer});
    assert group.pendingEntries == Released(g, consumer).pendingEntries;
  }

  // The pending entries with those in `done` orphaned.
  ghost predicate Unowned(pendings: map<string, PendingEntry>, g: Group, consumer: string, done: set<string>) {
    && pendings.Keys == g.pendingEntries.Keys
    && forall k :: k in pendings ==>
         pendings[k] == if k in done then g.pendingEntries[k].(consumer := "") else g.pendingEntries[k]
  }

  // The pending entries under these keys, each once.
  ghost predicate Lists(ps: seq<PendingEntry>, g: Group, keys: set<string>) {
    && keys <= g.pendingEntries.Keys && |ps| == |keys|
    && forall k :: k in keys ==> g.pendingEntries[k] in ps
  }

  ghost function Wanted(g: Group, consumer: string): set<string> {
    if consumer == "" then g.pendingEntries.Keys else Owned(g, consumer)
  }

  // Every matching entry once, in no particular order; the empty name matches all.
  method ListPending(g: Group, consumer: string) returns (results: seq<PendingEntry>)
    ensures Lists(results, g, Wanted(g, consumer))
  {
    results := [];
    var todo := g.pendingEntries.Keys;
    ghost var done: set<string> := {};
    while todo != {}
      invariant todo <= g.pendingEntries.Keys
      invariant forall k :: k in done <==> k in Wanted(g, consumer) && k !in todo
      invariant Lists(results, g, done)
      decreases |todo|
    {
      var k :| k in todo;
      if consumer == "" || g.pendingEntries[k].consumer == consumer {
        ListsMore(results, g, done, k);
        results := results + [g.pendingEntries[k]];
        done := done + {k};
      }
      todo := todo - {k};
    }
    assert done == Wanted(g, consumer);
  }

  lemma ListsMore(ps: seq<PendingEntry>, g: Group, keys: set<string>, k: string)
    requires Lists(ps, g, keys) && k in g.pendingEntries && k !in keys
    ensures Lists(ps + [g.pendingEntries[k]], g, keys + {k})
  {
  }

  // Hands a pending entry to the consumer.
  method Reassign(g: Group, consumer: string, minIdle: int, now: int, id: string) returns (group: Group)
    requires Claimable(g, minIdle, now, id) && consumer in g.consumers
    ensures group == ClaimOne(g, consumer, minIdle, now, id)
  {
    var pending := g.pendingEntries[id];
    var owner := pending.consumer;
    group := g.(pendingEntries := g.pendingEntries[id :=
      pending.(consumer := consumer, deliveredTime := now, deliveryCount := pending.deliveryCount + 1)]);
    if owner != "" && owner in group.consumers {
      var c := group.consumers[owner];
      group := group.(consumers := group.consumers[owner := c.(pendingEntriesNum := c.pendingEntriesNum - 1)]);
    }
    var c := group.consumers[consumer];
    group := group.(consumers := group.consumers[consumer := c.(pendingEntriesNum := c.pendingEntriesNum + 1)]);
  }
}
