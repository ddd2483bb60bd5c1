/** The stream (internal/datastructure/stream.go): an append-only log in a list pack, its index, and the
    consumer groups that read it. */
module Streams {
  import opened Bytes
  import opened StreamIDs
  import opened EntryCodec
  import opened StreamLogs
  import opened Groups
  import ListPacks

  // Pending entries are filed under their own ID, and the log holds them.
  ghost predicate Backed(g: Group, log: seq<Entry>) {
    Filed(g) && forall k :: k in g.pendingEntries ==> HasID(log, g.pendingEntries[k].id)
  }

  ghost predicate AllBacked(groups: map<string, Group>, log: seq<Entry>) {
    forall name :: name in groups ==> Backed(groups[name], log)
  }

  lemma {:induction false} HoldsMore(payloads: seq<seq<Byte>>, log: seq<Entry>, payload: seq<Byte>, entry: Entry)
    requires Holds(payloads, log) && Decoded(payload) == Ok(entry)
    ensures Holds(payloads + [payload], log + [entry])
  {
  }

  ghost predicate Holds(payloads: seq<seq<Byte>>, log: seq<Entry>) {
    |payloads| == |log| && forall i :: 0 <= i < |log| ==> Decoded(payloads[i]) == Ok(log[i])
  }

  ghost function LastOf(log: seq<Entry>): Option<StreamID> {
    if log == [] then None else Some(log[|log| - 1].id)
  }

  // Later pairs replace earlier ones.
  ghost function FieldsOf(values: seq<Text>): map<Text, Text> {
    if |values| < 2 then map[] else FieldsOf(values[..|values| - 2])[values[|values| - 2] := values[|values| - 1]]
  }

  ghost function FirstOf(es: seq<Entry>, count: int): seq<Entry> {
    if 0 < count < |es| then es[..count] else es
  }

  // What a group read returns: at most count entries from the ID that follows the last delivered one.
  ghost function Batch(log: seq<Entry>, last: StreamID, count: int): seq<Entry> {
    FirstOf(log[FirstFrom(log, last.NextSeq())..], count)
  }

  function StartID(last: Option<StreamID>, text: string): Result<StreamID> {
    if text == "$" then Ok(if last.Some? then last.value else StreamID(0, 0)) else ParseStreamID(text)
  }

  // "$" is the last ID of the log, or 0-0 for an empty log; a group may also start at "0"; else the ID itself.
  ghost predicate StartsAt(text: string, log: seq<Entry>, id: StreamID) {
    if text == "$" then id == if log == [] then StreamID(0, 0) else log[|log| - 1].id
    else if text == "0" then id == StreamID(0, 0)
    else AsksFor(text, Exact(id))
  }

  lemma StartReads(log: seq<Entry>, text: string)
    ensures StartID(LastOf(log), text).Ok? ==> StartsAt(text, log, StartID(LastOf(log), text).value)
    ensures StartsAt("0", log, StreamID(0, 0))
  {
    hide TrimSpace;
    hide AsksFor;
    if text == "0" {
      assert TrimSpace("0") == "0" by {
        TrimmedAlready("0");
        TrimReads("0", "0");
      }
      SplitNoDash("0", []);
      assert "0" + [] == "0" && |SplitDash([])| == 1;
    } else if text != "$" && ParseStreamID(text).Ok? {
      StreamIDReads(text, ParseStreamID(text).value);
    }
  }

  // The entries from position k on are those that the ID is not above.
  ghost predicate BeginAt(log: seq<Entry>, k: nat, from: StreamID) {
    k <= |log| && forall i :: 0 <= i < |log| ==> (i < k <==> IsAbove(from, log[i].id))
  }

  // The entries of the log at or behind from, the first count of them if count is positive.
  ghost predicate NewEntries(batch: seq<Entry>, log: seq<Entry>, from: StreamID, count: int) {
    exists k: nat :: BeginAt(log, k, from) && batch == log[k..if 0 < count < |log| - k then k + count else |log|]
  }

  lemma BatchIsNew(log: seq<Entry>, last: StreamID, count: int)
    requires Increasing(log)
    ensures NewEntries(Batch(log, last, count), log, Following(last), count)
  {
    var from := last.NextSeq();
    var k := FirstFrom(log, from);
    FirstFromCuts(log, from);
    forall i | 0 <= i < |log| ensures i < k <==> IsAbove(from, log[i].id) {
      RankOrder(log[i].id, from);
    }
    assert BeginAt(log, k, from);
    assert Batch(log, last, count) == log[k..if 0 < count < |log| - k then k + count else |log|];
  }

  function EnsureConsumer(g: Group, consumer: string, now: int): Group {
    if consumer in g.consumers then g else g.(consumers := g.consumers[consumer := Consumer(consumer, now, 0)])
  }

  // The IDs that are claimed, in the order of the request.
  ghost function ClaimedIds(g: Group, consumer: string, minIdle: int, now: int, ids: seq<string>): seq<string>
    decreases |ids|
  {
    if ids == [] then []
    else (if Claimable(g, minIdle, now, ids[0]) then [ids[0]] else [])
         + ClaimedIds(ClaimOne(g, consumer, minIdle, now, ids[0]), consumer, minIdle, now, ids[1..])
  }

  // How often a claim takes a pending entry that is named so many times.  What was delivered less than minIdle
  // ago is left alone; once taken, an entry has been delivered just now.
  ghost function Takes(p: PendingEntry, minIdle: int, now: int, times: nat): nat {
    if now - p.deliveredTime < minIdle then 0 else if minIdle > 0 && times > 0 then 1 else times
  }

  // How often an ID is named.
  ghost function Times(id: string, ids: seq<string>): nat {
    if ids == [] then 0 else (if ids[0] == id then 1 else 0) + Times(id, ids[1..])
  }

  // An entry that was taken belongs to the consumer, was delivered now, and has been delivered once more for each
  // time it was taken; any other is as it was.
  ghost predicate TakenTimes(p: PendingEntry, after: PendingEntry, consumer: string, minIdle: int, now: int,
                             times: nat, taken: nat)
  {
    && taken == Takes(p, minIdle, now, times)
    && after == if taken == 0 then p else PendingEntry(p.id, consumer, now, p.deliveryCount + taken)
  }

  // Every pending entry stays pending, taken as often as it should be for the times it is named, and so often it
  // is among the results, which hold nothing else.
  ghost predicate Claims(before: map<string, PendingEntry>, after: map<string, PendingEntry>, consumer: string,
                         minIdle: int, now: int, ids: seq<string>, taken: seq<string>)
  {
    && after.Keys == before.Keys
    && (forall id :: id in before ==>
         TakenTimes(before[id], after[id], consumer, minIdle, now, Times(id, ids), Times(id, taken)))
    && (forall id :: id !in before ==> Times(id, taken) == 0)
  }

  lemma TimesFirst(id: string, rest: seq<string>, k: string)
    ensures Times(k, [id] + rest) == (if k == id then 1 else 0) + Times(k, rest)
  {
    assert ([id] + rest)[1..] == rest;
  }

  // What naming an entry once more, first, does to it.
  lemma TakenFirst(p: PendingEntry, after: PendingEntry, consumer: string, minIdle: int, now: int, times: nat,
                   taken: nat)
    ensures now - p.deliveredTime < minIdle && TakenTimes(p, after, consumer, minIdle, now, times, taken)
            ==> TakenTimes(p, after, consumer, minIdle, now, times + 1, taken)
    ensures now - p.deliveredTime >= minIdle
            && TakenTimes(PendingEntry(p.id, consumer, now, p.deliveryCount + 1), after, consumer, minIdle, now, times,
                          taken)
            ==> TakenTimes(p, after, consumer, minIdle, now, times + 1, taken + 1)
  {
  }

  lemma ClaimOneInNumbers(g: Group, consumer: string, minIdle: int, now: int, id: string)
    ensures ClaimOne(g, consumer, minIdle, now, id).pendingEntries
         == if id !in g.pendingEntries || now - g.pendingEntries[id].deliveredTime < minIdle then g.pendingEntries
            else
              var p := g.pendingEntries[id];
              g.pendingEntries[id := PendingEntry(p.id, consumer, now, p.deliveryCount + 1)]
  {
  }

  lemma ClaimsMore(before: map<string, PendingEntry>, after: map<string, PendingEntry>, consumer: string,
                   minIdle: int, now: int, id: string, rest: seq<string>, taken: seq<string>)
    requires
      var next := if id !in before || now - before[id].deliveredTime < minIdle then before
                  else before[id := PendingEntry(before[id].id, consumer, now, before[id].deliveryCount + 1)];
      Claims(next, after, consumer, minIdle, now, rest, taken)
    ensures
      var first := if id !in before || now - before[id].deliveredTime < minIdle then [] else [id];
      Claims(before, after, consumer, minIdle, now, [id] + rest, first + taken)
  {
    hide TakenTimes;
    hide Times;
    assert [] + taken == taken;
    var first := if id !in before || now - before[id].deliveredTime < minIdle then [] else [id];
    forall k | k in before
      ensures TakenTimes(before[k], after[k], consumer, minIdle, now, Times(k, [id] + rest), Times(k, first + taken))
    {
      TimesFirst(id, rest, k);
      TimesFirst(id, taken, k);
      if k == id {
        TakenFirst(before[id], after[id], consumer, minIdle, now, Times(id, rest), Times(id, taken));
      }
    }
    forall k | k !in before ensures Times(k, first + taken) == 0 {
      TimesFirst(id, taken, k);
    }
  }

  lemma {:induction false} ClaimsInNumbers(g: Group, consumer: string, minIdle: int, now: int, ids: seq<string>)
    ensures Claims(g.pendingEntries, ClaimAll(g, consumer, minIdle, now, ids).pendingEntries, consumer, minIdle, now,
                   ids, ClaimedIds(g, consumer, minIdle, now, ids))
    decreases |ids|
  {
    hide Claims;
    if ids == [] {
      ClaimsNone(g.pendingEntries, consumer, minIdle, now);
    } else {
      var id, rest := ids[0], ids[1..];
      var g1 := ClaimOne(g, consumer, minIdle, now, id);
      ClaimsInNumbers(g1, consumer, minIdle, now, rest);
      ClaimOneInNumbers(g, consumer, minIdle, now, id);
      ClaimsMore(g.pendingEntries, ClaimAll(g1, consumer, minIdle, now, rest).pendingEntries, consumer, minIdle, now,
                 id, rest, ClaimedIds(g1, consumer, minIdle, now, rest));
      assert ids == [id] + rest;
    }
  }

  lemma ClaimsNone(pending: map<string, PendingEntry>, consumer: string, minIdle: int, now: int)
    ensures Claims(pending, pending, consumer, minIdle, now, [], [])
  {
  }

  // The claim loop after i IDs: where group and done stand, the rest of the IDs completes them.
  ghost predicate Claiming(g: Group, group: Group, consumer: string, minIdle: int, now: int, ids: seq<string>,
                           i: int, done: seq<string>)
    requires 0 <= i <= |ids|
  {
    && ClaimAll(group, consumer, minIdle, now, ids[i..]) == ClaimAll(g, consumer, minIdle, now, ids)
    && done + ClaimedIds(group, consumer, minIdle, now, ids[i..]) == ClaimedIds(g, consumer, minIdle, now, ids)
  }

  lemma ClaimingStep(g: Group, group: Group, consumer: string, minIdle: int, now: int, ids: seq<string>, i: int,
                     done: seq<string>)
    requires 0 <= i < |ids| && Claiming(g, group, consumer, minIdle, now, ids, i, done)
    ensures Claiming(g, ClaimOne(group, consumer, minIdle, now, ids[i]), consumer, minIdle, now, ids, i + 1,
                     if Claimable(group, minIdle, now, ids[i]) then done + [ids[i]] else done)
  {
    assert ids[i..][0] == ids[i] && ids[i..][1..] == ids[i + 1..];
  }

  lemma FetchedNone(log: seq<Entry>)
    ensures Fetched([], [], log)
  {
  }

  lemma FetchedMore(entries: seq<Entry>, ids: seq<string>, log: seq<Entry>, e: Entry)
    requires Fetched(entries, ids, log) && e in log
    ensures Fetched(entries + [e], ids + [e.id.ToString()], log)
  {
    hide StreamID.ToString;
  }

  lemma ClaimingStart(g: Group, consumer: string, minIdle: int, now: int, ids: seq<string>)
    ensures Claiming(g, g, consumer, minIdle, now, ids, 0, [])
  {
    assert ids[0..] == ids;
  }

  lemma ClaimingEnd(g: Group, group: Group, consumer: string, minIdle: int, now: int, ids: seq<string>,
                    done: seq<string>)
    requires Claiming(g, group, consumer, minIdle, now, ids, |ids|, done)
    ensures group == ClaimAll(g, consumer, minIdle, now, ids) && done == ClaimedIds(g, consumer, minIdle, now, ids)
  {
  }

  // The entries with these IDs, one each.
  ghost predicate Fetched(entries: seq<Entry>, ids: seq<string>, log: seq<Entry>) {
    |entries| == |ids| && forall i :: 0 <= i < |ids| ==> entries[i] in log && entries[i].id.ToString() == ids[i]
  }

  class Stream {
    var index: seq<Item>
    var entries: ListPacks.ListPack
    var lastStreamID: Option<StreamID>
    var groups: map<string, Group>
    ghost var log: seq<Entry>

    ghost predicate Valid()
      reads this, entries
    {
      && entries.Valid()
      && Holds(entries.Contents(), log)
      && Increasing(log)
      && index == IndexOf(log, 0)
      && lastStreamID == LastOf(log)
      && AllBacked(groups, log)
    }

    constructor ()
      ensures Valid() && fresh(entries) && log == [] && groups == map[]
    {
      entries := new ListPacks.ListPack();
      index := [];
      lastStreamID := None;
      groups := map[];
      log := [];
    }

    // With an odd number of values the loop reads behind the last one.
    method CreateEntry(id: string, values: seq<Text>, now: Uint64) returns (r: Result<Entry>)
      requires Valid()
      ensures match GenerateNextID(LastOf(log), id, now)
              case Ok(i) => r == if |values| % 2 == 0 then Ok(Entry(i, FieldsOf(values))) else Err(PANIC)
              case Err(m) => r == Err(m)
    {
      var entryID := GenerateNextID(lastStreamID, id, now);
      if entryID.Err? {
        return Err(entryID.message);
      }
      var fields: map<Text, Text> := map[];
      var i := 0;
      while i < |values|
        invariant 0 <= i <= |values| && i % 2 == 0
        invariant fields == FieldsOf(values[..i])
      {
        if i + 1 == |values| {
          return Err(PANIC);
        }
        assert values[..i + 2][..i] == values[..i];
        fields := fields[values[i] := values[i + 1]];
        i := i + 2;
      }
      assert values[..i] == values;
      return Ok(Entry(entryID.value, fields));
    }

    // order is the order in which the field map is iterated.
    method AppendEntry(entry: Entry, order: seq<Text>) returns (ok: bool)
      requires Valid() && Iterates(order, entry.fields) && |Encoded(entry, order)| < TWO_63
      modifies this, entries
      ensures Valid() && entries == old(entries) && groups == old(groups)
      ensures ok <==> forall i :: 0 <= i < |old(log)| ==> old(log)[i].id.Less(entry.id)
      ensures log == if ok then old(log) + [entry] else old(log)
    {
      hide Encoded;
      hide Decoded;
      hide IndexOf;
      hide Insert;
      hide AllBacked;
      hide Iterates;
      hide Holds;
      hide Increasing;
      hide StreamID.EncodeToBytes;
      AboveLast(log, entry.id);
      if lastStreamID.Some? {
        if entry.id.Compare(lastStreamID.value) <= 0 {
          return false;
        }
      }
      var payload := EntryCodec.EncodeEntry(entry, order);
      EntryRoundTrip(entry, order);
      entries.Append(payload);
      lastStreamID := Some(entry.id);
      var n := entries.Len();
      InsertAppends(log, 0, entry);
      index := Insert(index, entry.id.EncodeToBytes(), n - 1);
      MoreBacked(groups, log, entry);
      HoldsMore(old(entries.Contents()), log, payload, entry);
      log := log + [entry];
      return true;
    }

    method RangeScan(start: StreamID, end: StreamID) returns (r: Result<seq<Entry>>)
      requires Valid()
      ensures r == Scanned(log, start, end)
    {
      hide Decoded;
      hide AllBacked;
      hide Holds;
      hide Increasing;
      hide IndexOf;
      hide StreamID.EncodeToBytes;
      if lastStreamID.None? {
        return Ok([]);
      }
      var isMaxEnd := end.ms == TWO_64 - 1 && end.seq_ == TWO_64 - 1;
      SeekFinds(log, 0, start);
      var first := SeekLowerBound(index, start.EncodeToBytes());
      if first.None? {
        return Ok([]);
      }
      var startIndex := first.value.pos;
      var endIndex;
      if isMaxEnd {
        SeekFinds(log, 0, lastStreamID.value);
        LastIsFound(log);
        var last := SeekLowerBound(index, lastStreamID.value.EncodeToBytes());
        endIndex := last.value.pos;  // the last ID is in the index
      } else {
        SeekFinds(log, 0, end);
        var last := SeekLowerBound(index, end.EncodeToBytes());
        if last.None? {
          return Err("end not found");
        }
        endIndex := last.value.pos;
      }
      if endIndex - startIndex + 1 < 0 {
        return Err(PANIC);  // make with a negative capacity
      }
      r := ReadEntries(startIndex, endIndex);
    }

    // The scan's loop over the list pack.
    method ReadEntries(startIndex: int, endIndex: int) returns (r: Result<seq<Entry>>)
      requires Valid() && 0 <= startIndex <= endIndex + 1 <= |log|
      ensures r == Ok(log[startIndex..endIndex + 1])
    {
      hide Decoded;
      hide IndexOf;
      hide Increasing;
      hide AllBacked;
      var found: seq<Entry> := [];
      var i := startIndex;
      while i <= endIndex
        invariant startIndex <= i <= endIndex + 1
        invariant found == log[startIndex..i]
      {
        var payload := entries.Get(i);
        if payload.Err? {
          return Err("corrupt listpack");
        }
        var entry := DecodeEntry(payload.value);
        if entry.Err? {
          return Err("corrupt entry");
        }
        found := found + [entry.value];
        i := i + 1;
      }
      return Ok(found);
    }

    // ---- consumer groups ----

    method CreateGroup(groupName: string, startID: string) returns (r: Result<()>)
      requires Valid()
      modifies this`groups
      ensures Valid()
      ensures r.Ok? <==> groupName !in old(groups) && (startID == "0" || StartID(LastOf(log), startID).Ok?)
      ensures r.Err? ==> groups == old(groups)
      ensures r.Ok? ==> groupName in groups && StartsAt(startID, log, groups[groupName].lastDeliveredID)
      ensures r.Ok? ==>
        var from := if startID == "0" then StreamID(0, 0) else StartID(LastOf(log), startID).value;
        groups == old(groups)[groupName := Group(groupName, from, map[], map[])]
    {
      hide ParseStreamID;
      hide StartsAt;
      hide Increasing;
      hide Holds;
      hide IndexOf;
      if groupName in groups {
        return Err("BUSYGROUP");
      }
      StartReads(log, startID);
      var lastDeliveredID;
      if startID == "$" {
        lastDeliveredID := if lastStreamID.Some? then lastStreamID.value else StreamID(0, 0);
      } else if startID == "0" || startID == "0-0" {
        lastDeliveredID := StreamID(0, 0);
        ZeroText();
      } else {
        var id := ParseStreamID(startID);
        if id.Err? {
          return Err(id.message);
        }
        lastDeliveredID := id.value;
      }
      groups := groups[groupName := Group(groupName, lastDeliveredID, map[], map[])];
      return Ok(());
    }

    method DestroyGroup(groupName: string) returns (ok: bool)
      requires Valid()
      modifies this`groups
      ensures Valid()
      ensures ok <==> groupName in old(groups)
      ensures groups == old(groups) - {groupName}
    {
      if groupName !in groups {
        assert groups == groups - {groupName};
        return false;
      }
      groups := groups - {groupName};
      return true;
    }

    method SetGroupID(groupName: string, newID: string) returns (r: Result<()>)
      requires Valid()
      modifies this`groups
      ensures Valid()
      ensures r.Ok? <==> groupName in old(groups) && StartID(LastOf(log), newID).Ok?
      ensures r.Ok? ==> groupName in groups && StartsAt(newID, log, groups[groupName].lastDeliveredID)
      ensures groups == if r.Err? then old(groups)
                        else
                          var id := StartID(LastOf(log), newID).value;
                          old(groups)[groupName := old(groups)[groupName].(lastDeliveredID := id)]
    {
      hide ParseStreamID;
      hide StartsAt;
      hide Increasing;
      hide Holds;
      hide IndexOf;
      if groupName !in groups {
        return Err("NOGROUP");
      }
      StartReads(log, newID);
      if newID == "$" {
        var end := if lastStreamID.Some? then lastStreamID.value else StreamID(0, 0);
        groups := groups[groupName := groups[groupName].(lastDeliveredID := end)];
      } else {
        var id := ParseStreamID(newID);
        if id.Err? {
          return Err(id.message);
        }
        groups := groups[groupName := groups[groupName].(lastDeliveredID := id.value)];
      }
      return Ok(());
    }

    // The number of pending entries that lost their owner; zero when there is no such consumer.
    method DeleteConsumer(groupName: string, consumer: string) returns (r: Result<int>)
      requires Valid()
      modifies this`groups
      ensures Valid()
      ensures groupName !in old(groups) ==> r.Err? && groups == old(groups)
      ensures groupName in old(groups) ==>
        var g := old(groups)[groupName];
        && r == Ok(if consumer in g.consumers then |Owned(g, consumer)| else 0)
        && groups == if consumer in g.consumers then old(groups)[groupName := Released(g, consumer)] else old(groups)
    {
      hide Decoded;
      hide Holds;
      hide Increasing;
      hide IndexOf;
      hide LastOf;
      hide Backed;
      hide AllBacked;
      hide Released;
      if groupName !in groups {
        return Err("NOGROUP");
      }
      var group := groups[groupName];
      if consumer !in group.consumers {
        return Ok(0);
      }
      var left, pendingCount := Release(group, consumer);
      GetBacked(groups, groupName, log);
      ReleasedBacked(group, log, consumer);
      PutBacked(groups, groupName, left, log);
      groups := groups[groupName := left];
      return Ok(pendingCount);
    }

    // seen and now are the two clock readings.
    method ReadGroupNewEntries(groupName: string, consumer: string, count: int, seen: int, now: int)
      returns (r: Result<seq<Entry>>)
      requires Valid()
      modifies this`groups
      ensures Valid()
      ensures groupName !in old(groups) ==> r.Err? && groups == old(groups)
      ensures groupName in old(groups) ==>
        var g := old(groups)[groupName];
        && r == Ok(Batch(log, g.lastDeliveredID, count))
        && NewEntries(r.value, log, Following(g.lastDeliveredID), count)
        && groups == old(groups)[groupName := DeliverAll(Seen(g, consumer, seen), consumer, now, r.value)]
    {
      hide Decoded;
      hide IndexOf;
      hide FirstFrom;
      hide DeliverAll;
      hide Increasing;
      hide Holds;
      hide LastOf;
      hide Backed;
      hide AllBacked;
      hide StreamID.NextSeq;
      if groupName !in groups {
        return Err("NOGROUP");
      }
      ghost var g0 := groups[groupName];
      BatchIsNew(log, g0.lastDeliveredID, count);
      hide NewEntries;
      var group := groups[groupName];
      if consumer !in group.consumers {
        group := group.(consumers := group.consumers[consumer := Consumer(consumer, seen, 0)]);
      } else {
        group := group.(consumers := group.consumers[consumer := group.consumers[consumer].(lastSeenTime := seen)]);
      }
      assert group == Seen(g0, consumer, seen);
      SameBacked(groups, groupName, group, log);
      groups := groups[groupName := group];
      var startID := group.lastDeliveredID.NextSeq();
      var found := RangeScan(startID, MAX_ID);
      OpenScan(log, startID);
      if found.Err? {
        return Err("end not found");
      }
      var batch := found.value;
      if count > 0 && |batch| > count {
        batch := batch[..count];
      }
      group := DeliverBatch(group, consumer, now, batch);
      DeliveredBacked(groups[groupName], log, consumer, now, batch);
      PutBacked(groups, groupName, group, log);
      groups := groups[groupName := group];
      return Ok(batch);
    }

    // The number of entries that were pending.
    method AckEntries(groupName: string, ids: seq<string>) returns (r: Result<int>)
      requires Valid()
      modifies this`groups
      ensures Valid()
      ensures groupName !in old(groups) ==> r.Err? && groups == old(groups)
      ensures groupName in old(groups) ==>
        var g := old(groups)[groupName];
        && r == Ok(|g.pendingEntries| - |AckAll(g, ids).pendingEntries|)
        && groups == old(groups)[groupName := AckAll(g, ids)]
    {
      hide Increasing;
      hide Holds;
      hide IndexOf;
      hide LastOf;
      hide Backed;
      hide AllBacked;
      hide AckAll;
      if groupName !in groups {
        return Err("NOGROUP");
      }
      var group, acked := AckBatch(groups[groupName], ids);
      GetBacked(groups, groupName, log);
      AckedBacked(groups[groupName], log, ids);
      PutBacked(groups, groupName, group, log);
      groups := groups[groupName := group];
      return Ok(acked);
    }

    method GetPendingEntries(groupName: string, consumer: string) returns (r: Result<seq<PendingEntry>>)
      requires Valid()
      ensures groupName !in groups ==> r.Err?
      ensures groupName in groups ==> r.Ok? && Lists(r.value, groups[groupName], Wanted(groups[groupName], consumer))
    {
      if groupName !in groups {
        return Err("NOGROUP");
      }
      var results := ListPending(groups[groupName], consumer);
      return Ok(results);
    }

    // The claimed entry itself.  Since what is pending is in the log, it is always found.
    method ReadPending(text: string, ghost id: StreamID) returns (r: seq<Entry>)
      requires Valid() && text == id.ToString() && HasID(log, id)
      ensures |r| == 1 && r[0] in log && r[0].id == id
    {
      hide ParseStreamID;
      hide Scanned;
      TextRoundTrip(id);
      PointScan(log, id);
      var parsed := ParseStreamID(text);
      var found := RangeScan(parsed.value, parsed.value);
      if found.Ok? && |found.value| > 0 {
        return [found.value[0]];
      }
      return [];
    }

    // seen and now are the two clock readings.
    method ClaimEntries(groupName: string, consumer: string, minIdle: int, ids: seq<string>, seen: int, now: int)
      returns (r: Result<seq<Entry>>)
      requires Valid()
      modifies this`groups
      ensures Valid()
      ensures groupName !in old(groups) ==> r.Err? && groups == old(groups)
      ensures groupName in old(groups) ==>
        var g := EnsureConsumer(old(groups)[groupName], consumer, seen);
        && groups == old(groups)[groupName := ClaimAll(g, consumer, minIdle, now, ids)]
        && r.Ok? && Fetched(r.value, ClaimedIds(g, consumer, minIdle, now, ids), log)
        && Claims(g.pendingEntries, groups[groupName].pendingEntries, consumer, minIdle, now, ids,
                  ClaimedIds(g, consumer, minIdle, now, ids))
    {
      hide Decoded;
      hide IndexOf;
      hide ParseStreamID;
      hide ClaimOne;
      hide ClaimAll;
      hide ClaimedIds;
      hide Holds;
      hide LastOf;
      hide Increasing;
      hide Backed;
      hide AllBacked;
      hide Claims;
      if groupName !in groups {
        return Err("NOGROUP");
      }
      var group := groups[groupName];
      if consumer !in group.consumers {
        group := group.(consumers := group.consumers[consumer := Consumer(consumer, seen, 0)]);
      }
      SameBacked(groups, groupName, group, log);
      groups := groups[groupName := group];
      ClaimsInNumbers(group, consumer, minIdle, now, ids);
      var claimed;
      group, claimed := ClaimBatch(group, consumer, minIdle, ids, now);
      PutBacked(groups, groupName, group, log);
      groups := groups[groupName := group];
      return Ok(claimed);
    }

    // The claim's loop over the requested IDs.
    method ClaimBatch(g: Group, consumer: string, minIdle: int, ids: seq<string>, now: int)
      returns (group: Group, claimed: seq<Entry>)
      requires Valid() && Backed(g, log) && consumer in g.consumers
      ensures group == ClaimAll(g, consumer, minIdle, now, ids) && Backed(group, log)
      ensures Fetched(claimed, ClaimedIds(g, consumer, minIdle, now, ids), log)
    {
      hide Valid;
      hide Claiming;
      hide ClaimOne;
      hide ClaimAll;
      hide ClaimedIds;
      hide Backed;
      hide Fetched;
      hide HasID;
      hide StreamID.ToString;
      group := g;
      claimed := [];
      ghost var done: seq<string> := [];
      ClaimingStart(g, consumer, minIdle, now, ids);
      FetchedNone(log);
      for i := 0 to |ids|
        invariant Backed(group, log) && consumer in group.consumers
        invariant Claiming(g, group, consumer, minIdle, now, ids, i, done)
        invariant Fetched(claimed, done, log)
      {
        ClaimingStep(g, group, consumer, minIdle, now, ids, i, done);
        ClaimedBacked(group, log, consumer, minIdle, now, ids[i]);
        if Claimable(group, minIdle, now, ids[i]) {
          PendingInLog(group, log, ids[i]);
          var found := ReadPending(ids[i], group.pendingEntries[ids[i]].id);
          group := Reassign(group, consumer, minIdle, now, ids[i]);
          FetchedMore(claimed, done, log, found[0]);
          assert found == [found[0]];
          claimed := claimed + found;
          done := done + [ids[i]];
        }
      }
      ClaimingEnd(g, group, consumer, minIdle, now, ids, done);
    }
  }

  lemma ReleasedBacked(g: Group, log: seq<Entry>, consumer: string)
    requires Backed(g, log)
    ensures Backed(Released(g, consumer), log)
  {
    hide StreamID.ToString;
  }

  lemma PutBacked(groups: map<string, Group>, name: string, g: Group, log: seq<Entry>)
    requires AllBacked(groups, log) && Backed(g, log)
    ensures AllBacked(groups[name := g], log)
  {
  }

  lemma GetBacked(groups: map<string, Group>, name: string, log: seq<Entry>)
    requires AllBacked(groups, log) && name in groups
    ensures Backed(groups[name], log)
  {
  }

  lemma SameBacked(groups: map<string, Group>, name: string, g: Group, log: seq<Entry>)
    requires AllBacked(groups, log) && name in groups && g.pendingEntries == groups[name].pendingEntries
    ensures Backed(g, log) && AllBacked(groups[name := g], log)
  {
    assert Backed(groups[name], log);
  }

  lemma PendingInLog(g: Group, log: seq<Entry>, k: string)
    requires Backed(g, log) && k in g.pendingEntries
    ensures k == g.pendingEntries[k].id.ToString() && HasID(log, g.pendingEntries[k].id)
  {
  }

  lemma ClaimedBacked(g: Group, log: seq<Entry>, consumer: string, minIdle: int, now: int, id: string)
    requires Backed(g, log) && consumer in g.consumers
    ensures Backed(ClaimOne(g, consumer, minIdle, now, id), log)
    ensures consumer in ClaimOne(g, consumer, minIdle, now, id).consumers
    ensures !Claimable(g, minIdle, now, id) ==> ClaimOne(g, consumer, minIdle, now, id) == g
  {
    hide StreamID.ToString;
  }

  lemma {:induction false} DeliveredBacked(g: Group, log: seq<Entry>, consumer: string, now: int, batch: seq<Entry>)
    requires Backed(g, log) && forall i :: 0 <= i < |batch| ==> batch[i] in log
    ensures Backed(DeliverAll(g, consumer, now, batch), log)
    decreases |batch|
  {
    hide StreamID.ToString;
    hide StreamID.Compare;
    if batch != [] {
      var e := batch[0];
      var g1 := Deliver(g, consumer, now, e);
      assert HasID(log, e.id) by {
        assert e in log;
      }
      assert g1.pendingEntries == g.pendingEntries[e.id.ToString() := PendingEntry(e.id, consumer, now, 1)];
      DeliveredBacked(g1, log, consumer, now, batch[1..]);
    }
  }

  lemma {:induction false} AckedBacked(g: Group, log: seq<Entry>, ids: seq<string>)
    requires Backed(g, log)
    ensures Backed(AckAll(g, ids), log)
    decreases |ids|
  {
    hide StreamID.ToString;
    if ids != [] {
      assert AckOne(g, ids[0]).pendingEntries == g.pendingEntries - {ids[0]};
      AckedBacked(AckOne(g, ids[0]), log, ids[1..]);
    }
  }

  // The last value given for a field is the one that stays.
  lemma {:induction false} LastPairWins(values: seq<Text>, j: nat)
    requires 2 * j + 1 < |values| && |values| % 2 == 0
    requires forall k :: j < k && 2 * k + 1 < |values| ==> values[2 * k] != values[2 * j]
    ensures values[2 * j] in FieldsOf(values) && FieldsOf(values)[values[2 * j]] == values[2 * j + 1]
    decreases |values|
  {
    var n := |values| - 2;
    if 2 * j < n {
      assert values[2 * (n / 2)] != values[2 * j];
      LastPairWins(values[..n], j);
    }
  }

  lemma FirstIsThere(log: seq<Entry>, id: StreamID) returns (i: nat)
    requires Increasing(log) && HasID(log, id)
    ensures i < |log| && log[i].id == id && FirstFrom(log, id) == i
  {
    hide FirstFrom;
    hide Rank;
    FirstFromCuts(log, id);
    i :| 0 <= i < |log| && log[i].id == id;
    OneBefore(log, FirstFrom(log, id), i);
  }

  lemma OneBefore(log: seq<Entry>, i: nat, j: nat)
    requires Increasing(log)
    ensures i < j < |log| ==> Rank(log[i].id) < Rank(log[j].id)
  {
  }

  // Scanning for one ID that is in the log finds that entry alone.
  lemma PointScan(log: seq<Entry>, id: StreamID)
    requires Increasing(log) && HasID(log, id)
    ensures Scanned(log, id, id).Ok? && |Scanned(log, id, id).value| > 0
    ensures Scanned(log, id, id).value[0] in log && Scanned(log, id, id).value[0].id == id
  {
    var i := FirstIsThere(log, id);
    if id == MAX_ID {
      assert log[i..|log|][0] == log[i];
    } else {
      assert log[i..i + 1][0] == log[i];
    }
  }

  lemma AboveLast(log: seq<Entry>, id: StreamID)
    requires Increasing(log)
    ensures (forall i :: 0 <= i < |log| ==> log[i].id.Less(id)) <==> log == [] || LastOf(log).value.Less(id)
    ensures (forall i :: 0 <= i < |log| ==> log[i].id.Less(id))
            <==> forall i :: 0 <= i < |log| ==> Rank(log[i].id) < Rank(id)
    ensures (forall i :: 0 <= i < |log| ==> log[i].id.Less(id))
            ==> forall e: Entry :: e.id == id ==> Increasing(log + [e])
    ensures log != [] ==> (id.Compare(LastOf(log).value) <= 0 <==> !LastOf(log).value.Less(id))
  {
    forall i | 0 <= i < |log| ensures log[i].id.Less(id) <==> Rank(log[i].id) < Rank(id) {
      RankOrder(log[i].id, id);
    }
    if log != [] {
      RankOrder(id, LastOf(log).value);
    }
  }

  lemma MoreBacked(groups: map<string, Group>, log: seq<Entry>, e: Entry)
    requires AllBacked(groups, log)
    ensures AllBacked(groups, log + [e])
  {
    forall id | HasID(log, id) ensures HasID(log + [e], id) {
      var i :| 0 <= i < |log| && log[i].id == id;
      assert (log + [e])[i].id == id;
    }
  }

  lemma LastIsFound(log: seq<Entry>)
    requires Increasing(log) && log != []
    ensures FirstFrom(log, LastOf(log).value) == |log| - 1
  {
    FirstFromCuts(log, LastOf(log).value);
  }

  lemma OpenScan(log: seq<Entry>, start: StreamID)
    ensures Scanned(log, start, MAX_ID) == Ok(log[FirstFrom(log, start)..])
  {
    if FirstFrom(log, start) == |log| {
      assert log[|log|..] == [];
    } else {
      assert log[FirstFrom(log, start)..|log|] == log[FirstFrom(log, start)..];
    }
  }

  lemma ZeroText()
    ensures ParseStreamID("0-0") == Ok(StreamID(0, 0))
  {
    TextRoundTrip(StreamID(0, 0));
    assert Decimal(0) == "0";
    assert StreamID(0, 0).ToString() == "0-0";
  }
}
