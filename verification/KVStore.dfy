/** The key-value store with its memory limit (internal/store/kvstore.go): a map of objects, the recency
    tracker that must follow it, and the eviction loop. */
module KVStores {
  import opened Bytes
  import opened StreamIDs
  import opened Numbers
  import opened Lru
  import opened Evictions

  // ---- counters ----

  // The count and the new object.  An absent or expired counter starts at one, without expiry.
  function Incremented(old_: Option<Obj>, now: int): Result<(int, Obj)> {
    if old_.None? || Expired(old_.value, now) then Ok((1, Obj(Text("1"), None)))
    else if !old_.value.value.Text? then Err("value is not an integer or out of range")
    else
      match Atoi(old_.value.value.text)
      case Err(_) => Err("value is not an integer or out of range")
      case Ok(count) => Ok((Wrap(count + 1), Obj(Text(Itoa(Wrap(count + 1))), old_.value.ttl)))
  }

  // Digits, or digits behind a sign, for an integer of 64 bits.
  ghost predicate IsCount(s: string, n: int) {
    && -TWO_63 <= n < TWO_63
    && (|| (n >= 0 && (IsNumber(s, n) || (s != [] && s[0] == '+' && IsNumber(s[1..], n))))
        || (n <= 0 && s != [] && s[0] == '-' && IsNumber(s[1..], -n)))
  }

  // One increment: a key that is not alive starts at one without expiry; a count goes up by one, from the greatest
  // to the least, and keeps the expiry; anything else is an error and stays.
  ghost predicate CountsUp(before: map<string, Obj>, after: map<string, Obj>, key: string, now: int, r: Result<int>) {
    if !Alive(before, key, now) then r == Ok(1) && after == before[key := Obj(Text("1"), None)]
    else if r.Err? then
      after == before && !(before[key].value.Text? && exists n :: IsCount(before[key].value.text, n))
    else
      exists n :: before[key].value.Text? && IsCount(before[key].value.text, n)
        && r.value == (if n == TWO_63 - 1 then -TWO_63 else n + 1)
        && after == before[key := Obj(Text(Itoa(r.value)), before[key].ttl)]
  }

  lemma IncrementCountsUp(data: map<string, Obj>, key: string, now: int)
    ensures match Incremented(if key in data then Some(data[key]) else None, now)
            case Ok((n, o)) => CountsUp(data, data[key := o], key, now, Ok(n))
            case Err(m) => CountsUp(data, data, key, now, Err(m))
  {
    hide Atoi;
    hide Itoa;
    hide IsNumber;
    if Alive(data, key, now) && data[key].value.Text? {
      var s := data[key].value.text;
      forall n | -TWO_63 <= n < TWO_63 ensures Atoi(s) == Ok(n) <==> IsCount(s, n) {
        AtoiReads(s, n);
      }
    }
  }

  ghost function IncrementedTimes(o: Obj, now: int, n: nat): Result<(int, Obj)>
    requires n > 0
  {
    if n == 1 then Incremented(Some(o), now)
    else
      match IncrementedTimes(o, now, n - 1)
      case Err(m) => Err(m)
      case Ok((_, o1)) => Incremented(Some(o1), now)
  }

  // n increments of a counter add n, with wrap-around, and keep its expiry.
  lemma {:induction false} IncrementsAddUp(count: int, ttl: Option<int>, now: int, n: nat)
    requires -TWO_63 <= count < TWO_63 && n > 0 && (ttl == None || now <= ttl.value)
    ensures IncrementedTimes(Obj(Text(Itoa(count)), ttl), now, n)
         == Ok((Wrap(count + n), Obj(Text(Itoa(Wrap(count + n))), ttl)))
  {
    hide Itoa;
    hide Atoi;
    if n == 1 {
      AtoiItoa(count);
    } else {
      IncrementsAddUp(count, ttl, now, n - 1);
      AtoiItoa(Wrap(count + n - 1));
      WrapNext(count + n - 1);
    }
  }

  // ---- the store ----

  // The store that the tracker's last event, if it is a touch, was applied to.
  ghost predicate Between(mid: View, history: seq<Touch>, touched: bool) {
    if touched then history != [] && mid.keys == Order(history[..|history| - 1]) else mid.keys == Order(history)
  }

  class KVStore {
    var syncMap: map<string, Obj>
    const lruTracker: LRUTracker
    var totalEvictions: int

    ghost predicate Valid()
      reads this, lruTracker, lruTracker.chain
    {
      lruTracker.Valid() && Tracks(Look())
    }

    ghost function Look(): View
      reads this, lruTracker
    {
      View(lruTracker.Keys(), syncMap, totalEvictions)
    }

    lemma KeysInOrder()
      requires Valid()
      ensures lruTracker.Keys() == Order(lruTracker.history) && forall k :: k in lruTracker.Keys() <==> k in syncMap
    {
    }

    lemma Tracked()
      requires Valid()
      ensures Tracks(Look())
    {
    }

    constructor ()
      ensures Valid() && Look() == View([], map[], 0)
      ensures fresh(lruTracker) && lruTracker.history == [] && lruTracker.Nodes() == {}
    {
      syncMap := map[];
      lruTracker := new LRUTracker();
      totalEvictions := 0;
    }

    method Delete(key: string)
      requires Valid()
      modifies this, lruTracker, lruTracker.Nodes()
      ensures Valid() && lruTracker.Nodes() <= old(lruTracker.Nodes())
      ensures Look() == Drop(old(Look()), key)
      ensures lruTracker.history == old(lruTracker.history) + [Forgotten(key)]
    {
      hide LRUTracker.Valid;
      hide Without;
      WithoutMembers(lruTracker.Keys(), key);
      WithoutNoRepeats(lruTracker.Keys(), key);
      lruTracker.Remove(key);
      syncMap := syncMap - {key};
    }

    // The body of every write: store, then touch.
    method Save(key: string, o: Obj)
      requires Valid()
      modifies this, lruTracker, lruTracker.Nodes()
      ensures Valid() && fresh(lruTracker.Nodes() - old(lruTracker.Nodes()))
      ensures Look() == Put(old(Look()), key, o)
      ensures lruTracker.history == old(lruTracker.history) + [Touched(key)]
    {
      hide LRUTracker.Valid;
      hide Without;
      WithoutMembers(lruTracker.Keys(), key);
      WithoutNoRepeats(lruTracker.Keys(), key);
      syncMap := syncMap[key := o];
      lruTracker.Access(key);
    }

    method Store(key: string, o: Obj, cfg: Config, memory: nat -> int, ghost bound: nat)
      returns (ok: bool, ghost mid: View)
      requires Valid() && Ends(cfg, memory, syncMap, bound)
      modifies this, lruTracker, lruTracker.Nodes()
      ensures Valid() && Enforced(cfg, memory, old(Look()), mid, ok)
      ensures Look() == if ok then Put(mid, key, o) else mid
      ensures syncMap == if ok then mid.data[key := o] else mid.data
      ensures Appends(old(lruTracker.history), lruTracker.history, if ok then Some(key) else None)
      ensures Between(mid, lruTracker.history, ok)
      ensures fresh(lruTracker.Nodes() - old(lruTracker.Nodes()))
    {
      hide LRUTracker.Valid;
      hide Without;
      hide Enforced;
      hide Appends;
      hide Order;
      ok := EvictIfNeeded(cfg, memory, bound);
      mid := Look();
      KeysInOrder();
      if ok {
        AppendsTouch(old(lruTracker.history), lruTracker.history, key);
        Save(key, o);
      }
    }

    method GetValue(key: string, now: int) returns (r: Option<Obj>)
      requires Valid()
      modifies this, lruTracker, lruTracker.Nodes()
      ensures Valid()
      ensures r == if Alive(old(syncMap), key, now) then Some(old(syncMap)[key]) else None
      ensures syncMap == if Alive(old(syncMap), key, now) then old(syncMap) else old(syncMap) - {key}
      ensures Look() == if key !in old(syncMap) then old(Look())
                        else if !Alive(old(syncMap), key, now) then Drop(old(Look()), key)
                        else Refresh(old(Look()), key)
      ensures lruTracker.history == old(lruTracker.history) +
                if r.Some? then [Touched(key)] else if key in old(syncMap) then [Forgotten(key)] else []
      ensures fresh(lruTracker.Nodes() - old(lruTracker.Nodes()))
    {
      hide LRUTracker.Valid;
      hide Without;
      if key !in syncMap {
        return None;
      }
      var val := syncMap[key];
      if Expired(val, now) {
        Delete(key);
        return None;
      }
      WithoutMembers(lruTracker.Keys(), key);
      WithoutNoRepeats(lruTracker.Keys(), key);
      lruTracker.Access(key);
      return Some(val);
    }

    // LoadOrStoreList, LoadOrStoreStream and LoadOrStoreSortedSet, by kind; `made` is the new container.  The
    // result is None in r for a key of another type; expiry is not looked at.
    method LoadOrStore(key: string, kind: Kind, made: int, cfg: Config, memory: nat -> int, ghost bound: nat)
      returns (ok: bool, r: Option<(Value, bool)>, ghost mid: View)
      requires Valid() && Ends(cfg, memory, syncMap, bound)
      modifies this, lruTracker, lruTracker.Nodes()
      ensures Valid() && Enforced(cfg, memory, old(Look()), mid, ok)
      ensures !ok ==> r == None && Look() == mid
      ensures ok && key in mid.data ==>
        && Look() == Refresh(mid, key)
        && r == if mid.data[key].value.Container? && mid.data[key].value.kind == kind
                then Some((mid.data[key].value, true)) else None
      ensures ok && key !in mid.data ==>
        Look() == Put(mid, key, Obj(Container(kind, made), None)) && r == Some((Container(kind, made), false))
      ensures Appends(old(lruTracker.history), lruTracker.history, if ok then Some(key) else None)
      ensures Between(mid, lruTracker.history, ok)
      ensures fresh(lruTracker.Nodes() - old(lruTracker.Nodes()))
    {
      hide LRUTracker.Valid;
      hide Without;
      hide Enforced;
      hide Appends;
      hide Put;
      hide Refresh;
      hide Order;
      ok := EvictIfNeeded(cfg, memory, bound);
      mid := Look();
      KeysInOrder();
      if !ok {
        return false, None, mid;
      }
      AppendsTouch(old(lruTracker.history), lruTracker.history, key);
      var loaded := key in syncMap;
      var val := if loaded then syncMap[key] else Obj(Container(kind, made), None);
      Save(key, val);
      if loaded {
        PutAgain(mid, key);
      }
      if !(val.value.Container? && val.value.kind == kind) {
        return true, None, mid;
      }
      return true, Some((val.value, loaded)), mid;
    }

    method IncrementString(key: string, now: int, cfg: Config, memory: nat -> int, ghost bound: nat)
      returns (ok: bool, r: Result<int>, ghost mid: View)
      requires Valid() && Ends(cfg, memory, syncMap, bound)
      modifies this, lruTracker, lruTracker.Nodes()
      ensures Valid() && Enforced(cfg, memory, old(Look()), mid, ok)
      ensures !ok ==> r.Err? && Look() == mid
      ensures ok ==>
        match Incremented(if key in mid.data then Some(mid.data[key]) else None, now)
        case Ok((n, o)) => r == Ok(n) && Look() == Put(mid, key, o)
        case Err(m) => r == Err(m) && Look() == mid
      ensures ok ==> CountsUp(mid.data, syncMap, key, now, r)
      ensures Appends(old(lruTracker.history), lruTracker.history, if ok && r.Ok? then Some(key) else None)
      ensures Between(mid, lruTracker.history, ok && r.Ok?)
      ensures fresh(lruTracker.Nodes() - old(lruTracker.Nodes()))
    {
      hide LRUTracker.Valid;
      hide Without;
      hide Enforced;
      hide Atoi;
      hide Itoa;
      hide Appends;
      hide Order;
      ok := EvictIfNeeded(cfg, memory, bound);
      mid := Look();
      KeysInOrder();
      if !ok {
        return false, Err("OOM"), mid;
      }
      IncrementCountsUp(syncMap, key, now);
      hide CountsUp;
      var next := Incremented(if key in syncMap then Some(syncMap[key]) else None, now);
      if next.Err? {
        return true, Err(next.message), mid;
      }
      AppendsTouch(old(lruTracker.history), lruTracker.history, key);
      Save(key, next.value.1);
      return true, Ok(next.value.0), mid;
    }

    // Loading from disk does not look at the limit.
    method StoreRDBEntry(key: string, text: string, expireAt: Option<int>)
      requires Valid()
      modifies this, lruTracker, lruTracker.Nodes()
      ensures Valid()
      ensures Look() == Put(old(Look()), key, Obj(Text(text), expireAt))
      ensures syncMap == old(syncMap)[key := Obj(Text(text), expireAt)]
      ensures lruTracker.history == old(lruTracker.history) + [Touched(key)]
      ensures fresh(lruTracker.Nodes() - old(lruTracker.Nodes()))
    {
      Save(key, Obj(Text(text), expireAt));
    }

    method GetAllKeys(now: int) returns (keys: seq<string>)
      requires Valid()
      ensures NoRepeats(keys)
      ensures forall k :: k in keys <==> Alive(syncMap, k, now)
    {
      keys := [];
      var todo := syncMap.Keys;
      while todo != {}
        invariant todo <= syncMap.Keys && NoRepeats(keys)
        invariant forall k :: k in keys <==> Alive(syncMap, k, now) && k !in todo
        decreases |todo|
      {
        var k :| k in todo;
        if !Expired(syncMap[k], now) {
          keys := keys + [k];
        }
        todo := todo - {k};
      }
    }

    // ---- eviction ----

    // `memory` gives the heap readings in turn.  The precondition says just that the loop ends.
    method EvictIfNeeded(cfg: Config, memory: nat -> int, ghost bound: nat) returns (ok: bool)
      requires Valid() && Ends(cfg, memory, syncMap, bound)
      modifies this, lruTracker, lruTracker.Nodes()
      ensures Valid() && lruTracker.Nodes() <= old(lruTracker.Nodes())
      ensures Enforced(cfg, memory, old(Look()), Look(), ok)
      ensures Appends(old(lruTracker.history), lruTracker.history, None)
    {
      hide LRUTracker.Valid;
      hide Without;
      hide EvictsOne;
      hide Evicting;
      hide Enforced;
      hide AllVolatile;
      ghost var v := Look();
      EvictingStart(cfg, memory, v);
      if cfg.maxMemory <= 0 {
        return true;
      }
      var i := 0;
      while memory(i) > cfg.maxMemory
        invariant Valid() && lruTracker.Nodes() <= old(lruTracker.Nodes())
        invariant Evicting(cfg, memory, v, Look(), i)
        invariant Appends(old(lruTracker.history), lruTracker.history, None)
        invariant memory(bound) <= cfg.maxMemory ==> i <= bound
        decreases if memory(bound) <= cfg.maxMemory then bound - i else |lruTracker.Keys()|
      {
        var n := lruTracker.Len();
        if n == 0 {
          EvictingEnd(cfg, memory, v, Look(), i);
          return true;
        }
        ghost var before := Look();
        ok := EvictOne(cfg.policy);
        if !ok {
          EvictingRefused(cfg, memory, v, Look(), i);
          return false;
        }
        EvictingStep(cfg, memory, v, before, Look(), i);
        i := i + 1;
      }
      EvictingEnd(cfg, memory, v, Look(), i);
      return true;
    }

    method EvictOne(policy: Policy) returns (ok: bool)
      requires Valid()
      modifies this, lruTracker, lruTracker.Nodes()
      ensures Valid() && lruTracker.Nodes() <= old(lruTracker.Nodes())
      ensures ok <==> !policy.NoEviction?
      ensures policy.NoEviction? ==> Look() == old(Look())
      ensures ok ==> EvictsOne(policy, old(Look()), Look())
      ensures Appends(old(lruTracker.history), lruTracker.history, None)
    {
      hide Victim;
      hide EvictsOne;
      hide LRUTracker.Valid;
      ok := true;
      match policy
      case NoEviction =>
        ok := false;
      case AllKeysLRU =>
        var key := lruTracker.PeekLRU();
        AllKeysVictims(policy, Look());
        if key.Some? {
          Evict(policy, key.value);
        }
      case VolatileLRU =>
        var evictKey := PickVolatileLRU();
        NothingPicked(policy, Look());
        if evictKey != "" {
          Evict(policy, evictKey);
        }
      case AllKeysRandom =>
        var key := lruTracker.PeekRandom();
        AllKeysVictims(policy, Look());
        if key.Some? {
          Evict(policy, key.value);
        }
      case VolatileRandom =>
        var evictKey := PickVolatileRandom();
        NothingPicked(policy, Look());
        if evictKey != "" {
          Evict(policy, evictKey);
        }
      case VolatileTTL =>
        var evictKey := PickVolatileTTL();
        NothingPicked(policy, Look());
        if evictKey != "" {
          Evict(policy, evictKey);
        }
    }

    method Evict(ghost policy: Policy, key: string)
      requires Valid() && Victim(policy, Look(), key) && !(policy.Volatile() && key == "")
      modifies this, lruTracker, lruTracker.Nodes()
      ensures Valid() && lruTracker.Nodes() <= old(lruTracker.Nodes())
      ensures EvictsOne(policy, old(Look()), Look())
      ensures lruTracker.history == old(lruTracker.history) + [Forgotten(key)]
    {
      hide Victim;
      hide LRUTracker.Valid;
      Delete(key);
      totalEvictions := totalEvictions + 1;
      assert Look() == Evicted(old(Look()), key);
    }

    // The least recent key with an expiry, or the empty string.
    method PickVolatileLRU() returns (evictKey: string)
      requires Valid()
      ensures Victim(VolatileLRU, Look(), evictKey) || (evictKey == "" && forall k :: !Victim(VolatileLRU, Look(), k))
    {
      var m := syncMap;
      var found := lruTracker.IterateFromLRU(key => key in m && m[key].ttl.Some?);
      evictKey := if found.Some? then found.value else "";
      assert forall k :: HasTTL(syncMap, k) <==> k in m && m[k].ttl.Some?;
    }

    // Some key with an expiry, or the empty string.
    method PickVolatileRandom() returns (evictKey: string)
      requires Valid()
      ensures Victim(VolatileRandom, Look(), evictKey)
              || (evictKey == "" && forall k :: !Victim(VolatileRandom, Look(), k))
    {
      hide LRUTracker.Valid;
      var todo := syncMap.Keys;
      while todo != {}
        invariant todo <= syncMap.Keys && forall k :: k in syncMap && k !in todo ==> !HasTTL(syncMap, k)
        decreases |todo|
      {
        var key :| key in todo;
        if syncMap[key].ttl.Some? {
          return key;
        }
        todo := todo - {key};
      }
      return "";
    }

    // A key with the earliest expiry, or the empty string.
    method PickVolatileTTL() returns (minKey: string)
      requires Valid()
      ensures Victim(VolatileTTL, Look(), minKey) || (minKey == "" && forall k :: !Victim(VolatileTTL, Look(), k))
    {
      hide LRUTracker.Valid;
      minKey := "";
      var minTTL: Option<int> := None;
      var todo := syncMap.Keys;
      while todo != {}
        invariant todo <= syncMap.Keys
        invariant minTTL.None? ==> minKey == "" && forall k :: k in syncMap && k !in todo ==> !HasTTL(syncMap, k)
        invariant minTTL.Some? ==> HasTTL(syncMap, minKey) && syncMap[minKey].ttl == minTTL
        invariant minTTL.Some? ==> forall k :: k !in todo && HasTTL(syncMap, k) ==> minTTL.value <= syncMap[k].ttl.value
        decreases |todo|
      {
        var key :| key in todo;
        var ttl := syncMap[key].ttl;
        if ttl.Some? && (minTTL.None? || ttl.value < minTTL.value) {
          minKey, minTTL := key, ttl;
        }
        todo := todo - {key};
      }
    }
  }
}
