/** Whole runs of store operations (internal/store/kvstore.go:40-192): after any run the tracker holds the keys
    of the store, in the order of the last calls that touched them. */
module StoreRuns {
  import opened Bytes
  import opened StreamIDs
  import opened Lru
  import opened Evictions
  import opened KVStores

  // Calls of the store.  Calls that enforce the limit come with the heap readings, and a reading from which
  // it is seen that they return.
  datatype Call =
    | Write(key: string, o: Obj, memory: nat -> int, bound: nat)
    | Read(key: string, now: int)
    | Open(key: string, kind: Kind, made: int, memory: nat -> int, bound: nat)
    | Increment(key: string, now: int, memory: nat -> int, bound: nat)
    | Load(key: string, text: string, expireAt: Option<int>)
    | Remove(key: string)

  predicate Returns(cfg: Config, data: map<string, Obj>, c: Call) {
    match c
    case Write(_, _, memory, bound) => Ends(cfg, memory, data, bound)
    case Open(_, _, _, memory, bound) => Ends(cfg, memory, data, bound)
    case Increment(_, _, memory, bound) => Ends(cfg, memory, data, bound)
    case _ => true
  }

  // Once the limit is enforced, which leaves mid, the store becomes `done` and the key is touched - or neither.
  ghost predicate Then(ok: bool, mid: View, v1: View, done: View, key: string, t: seq<Touch>) {
    v1 == (if ok then done else mid) && EndsWith(t, if ok then Some(key) else None)
  }

  ghost function Opened(v: View, key: string, kind: Kind, made: int): View {
    if key in v.data then Refresh(v, key) else Put(v, key, Obj(Container(kind, made), None))
  }

  ghost function Counted(v: View, key: string, now: int): Result<(int, Obj)> {
    Incremented(if key in v.data then Some(v.data[key]) else None, now)
  }

  // The keys that enforcing the limit leaves are those that the tracker does not forget.
  ghost predicate Spared(v: View, mid: View, t: seq<Touch>) {
    forall k :: k in mid.data <==> k in v.data && Forgotten(k) !in t
  }

  // What a call makes of the store v: the store v1, the events t of the tracker, and what a read answers.
  ghost predicate Did(cfg: Config, c: Call, v: View, v1: View, t: seq<Touch>, reply: Option<Obj>) {
    match c
    case Write(key, o, memory, _) =>
      exists ok, mid :: Enforced(cfg, memory, v, mid, ok) && Spared(v, mid, t)
        && Then(ok, mid, v1, Put(mid, key, o), key, t)
    case Read(key, now) =>
      if Alive(v.data, key, now) then
        reply == Some(v.data[key]) && v1 == Refresh(v, key) && t == [Touched(key)]
      else if key in v.data then reply == None && v1 == Drop(v, key) && t == [Forgotten(key)]
      else reply == None && v1 == v && t == []
    case Open(key, kind, made, memory, _) =>
      exists ok, mid :: Enforced(cfg, memory, v, mid, ok) && Spared(v, mid, t)
        && Then(ok, mid, v1, Opened(mid, key, kind, made), key, t)
    case Increment(key, now, memory, _) =>
      exists ok, mid :: Enforced(cfg, memory, v, mid, ok) && Spared(v, mid, t) &&
        var next := Counted(mid, key, now);
        if next.Ok? then Then(ok, mid, v1, Put(mid, key, next.value.1), key, t) else v1 == mid && EndsWith(t, None)
    case Load(key, text, expireAt) => v1 == Put(v, key, Obj(Text(text), expireAt)) && t == [Touched(key)]
    case Remove(key) => v1 == Drop(v, key) && t == [Forgotten(key)]
  }

  // ---- which call touched a key last ----

  // The events of a run, call by call, in one sequence.
  ghost function Joined(log: seq<seq<Touch>>): seq<Touch> {
    if log == [] then [] else Joined(log[..|log| - 1]) + log[|log| - 1]
  }

  ghost predicate Touches(t: seq<Touch>, key: string) { t != [] && t[|t| - 1] == Touched(key) }

  // The last call that touched the key; -1 for none.
  ghost function LastCall(log: seq<seq<Touch>>, key: string): (n: int)
    ensures -1 <= n < |log|
    ensures n >= 0 ==> Touches(log[n], key)
  {
    if log == [] then -1
    else if Touches(log[|log| - 1], key) then |log| - 1
    else LastCall(log[..|log| - 1], key)
  }

  // Some call touched the key, and none forgot it afterwards.
  ghost predicate Stays(log: seq<seq<Touch>>, key: string) {
    LastCall(log, key) >= 0 && forall i :: LastCall(log, key) < i < |log| ==> Forgotten(key) !in log[i]
  }

  // A call forgets keys and then touches at most one.
  ghost predicate OneTouch(t: seq<Touch>) { exists touched :: EndsWith(t, touched) }

  ghost predicate ByLastCall(keys: seq<string>, log: seq<seq<Touch>>) {
    forall i, j :: 0 <= i < j < |keys| ==> LastCall(log, keys[i]) > LastCall(log, keys[j])
  }

  // Forgetting keys takes them out and leaves the others in their order.
  lemma {:induction false} OrderWithout(h: seq<Touch>, t: seq<Touch>, rank: string -> int)
    requires OnlyForgets(t)
    ensures forall k :: k in Order(h + t) <==> k in Order(h) && Forgotten(k) !in t
    ensures Falling(Order(h), rank) ==> Falling(Order(h + t), rank)
    decreases |t|
  {
    hide Order;
    if t == [] {
      assert h + t == h;
    } else {
      var s, last := t[..|t| - 1], t[|t| - 1];
      OrderWithout(h, s, rank);
      assert h + t == (h + s) + [Forgotten(last.key)];
      OrderForgets(h + s, last.key);
      WithoutMembers(Order(h + s), last.key);
      assert t == s + [last];
      if Falling(Order(h), rank) {
        WithoutKeepsOrder(Order(h + s), last.key, rank);
      }
    }
  }

  // A call that does not touch the key.
  lemma {:induction false} StaysOn(log: seq<seq<Touch>>, key: string)
    requires log != [] && !Touches(log[|log| - 1], key)
    ensures LastCall(log, key) == LastCall(log[..|log| - 1], key)
    ensures Stays(log, key) <==> Stays(log[..|log| - 1], key) && Forgotten(key) !in log[|log| - 1]
  {
    var before := log[..|log| - 1];
    assert forall i :: 0 <= i < |before| ==> before[i] == log[i];
  }

  lemma {:induction false} AfterForgets(log: seq<seq<Touch>>, before: seq<seq<Touch>>, keys: seq<string>)
    requires log != [] && before == log[..|log| - 1] && OnlyForgets(log[|log| - 1])
    requires forall k :: k in keys <==> Stays(before, k) && Forgotten(k) !in log[|log| - 1]
    requires ByLastCall(keys, before)
    ensures forall k :: k in keys <==> Stays(log, k)
    ensures ByLastCall(keys, log)
  {
    hide Stays;
    hide LastCall;
    forall k ensures (k in keys <==> Stays(log, k)) && LastCall(log, k) == LastCall(before, k) {
      StaysOn(log, k);
    }
  }

  lemma {:induction false} AfterTouch(log: seq<seq<Touch>>, before: seq<seq<Touch>>, gone: seq<Touch>, key: string,
                                      keys: seq<string>)
    requires log != [] && before == log[..|log| - 1] && log[|log| - 1] == gone + [Touched(key)] && OnlyForgets(gone)
    requires forall k :: k in keys <==> Stays(before, k) && Forgotten(k) !in gone
    requires ByLastCall(keys, before)
    ensures forall k :: k in MoveToFront(keys, key) <==> Stays(log, k)
    ensures ByLastCall(MoveToFront(keys, key), log)
  {
    hide Without;
    var rest := Without(keys, key);
    WithoutMembers(keys, key);
    WithoutKeepsOrder(keys, key, k => LastCall(before, k));
    assert Touches(log[|log| - 1], key) && LastCall(log, key) == |log| - 1;
    forall k | k != key
      ensures (k in rest <==> Stays(log, k)) && LastCall(log, k) == LastCall(before, k)
    {
      StaysOn(log, k);
    }
    forall j | 0 <= j < |rest| ensures rest[j] != key && LastCall(log, rest[j]) < |log| - 1 {
      assert rest[j] in rest;
    }
  }

  // The tracked keys are those that some call touched and none forgot since, in the order of the calls that
  // touched them last.
  ghost predicate InOrder(keys: seq<string>, log: seq<seq<Touch>>) {
    ByLastCall(keys, log) && forall k :: k in keys <==> Stays(log, k)
  }

  lemma {:induction false} NextInOrder(log: seq<seq<Touch>>, before: seq<seq<Touch>>, gone: seq<Touch>)
    requires log != [] && before == log[..|log| - 1] && OnlyForgets(gone) && InOrder(Order(Joined(before)), before)
    requires log[|log| - 1] == gone || exists key :: log[|log| - 1] == gone + [Touched(key)]
    ensures InOrder(Order(Joined(log)), log)
  {
    hide Order;
    hide LastCall;
    hide Stays;
    hide MoveToFront;
    var h, t := Joined(before), log[|log| - 1];
    OrderWithout(h, gone, k => LastCall(before, k));
    if t == gone {
      AfterForgets(log, before, Order(h + gone));
    } else {
      var key :| t == gone + [Touched(key)];
      assert Joined(log) == (h + gone) + [Touched(key)];
      OrderTouches(h + gone, key);
      AfterTouch(log, before, gone, key, Order(h + gone));
    }
  }

  lemma {:induction false} RunOrder(log: seq<seq<Touch>>)
    requires forall i :: 0 <= i < |log| ==> OneTouch(log[i])
    ensures InOrder(Order(Joined(log)), log)
    decreases |log|
  {
    if log != [] {
      hide InOrder;
      var before, t := log[..|log| - 1], log[|log| - 1];
      RunOrder(before);
      var touched :| EndsWith(t, touched);
      if touched.Some? {
        assert t == t[..|t| - 1] + [Touched(touched.value)];
        NextInOrder(log, before, t[..|t| - 1]);
      } else {
        NextInOrder(log, before, t);
      }
    }
  }

  // So what allkeys-lru evicts was last touched by earlier calls than what stays.
  lemma {:induction false} RunEvictsOldest(cfg: Config, memory: nat -> int, log: seq<seq<Touch>>, v: View, v1: View)
    requires forall i :: 0 <= i < |log| ==> OneTouch(log[i])
    requires Tracks(v) && v.keys == Order(Joined(log)) && cfg.policy.AllKeysLRU? && cfg.maxMemory > 0
    requires Enforced(cfg, memory, v, v1, true)
    ensures forall gone, kept :: gone in v.data && gone !in v1.data && kept in v1.data ==>
              LastCall(log, gone) < LastCall(log, kept)
  {
    hide Order;
    hide LastCall;
    hide Rounds;
    hide Keep;
    hide Stays;
    RunOrder(log);
    assert Tracks(v1) && v1.keys <= v.keys;
    forall gone, kept | gone in v.data && gone !in v1.data && kept in v1.data
      ensures LastCall(log, gone) < LastCall(log, kept)
    {
      assert gone in v.keys && gone !in v1.keys;
      var i :| 0 <= i < |v.keys| && v.keys[i] == gone;
      var j :| 0 <= j < |v1.keys| && v1.keys[j] == kept;
      assert v.keys[j] == kept;
    }
  }

  // ---- what a key holds after a run ----

  // What the calls say that a key holds: an object that a call gave it and no later one took away.
  ghost function Given(c: Call, t: seq<Touch>, key: string, before: Option<Obj>): Option<Obj> {
    var left := if Forgotten(key) in t then None else before;
    if c.key != key || !Touches(t, key) then left  // another key, or a call that was refused or found nothing
    else
      match c
      case Write(_, o, _, _) => Some(o)
      case Load(_, text, expireAt) => Some(Obj(Text(text), expireAt))
      case Open(_, kind, made, _, _) => if left.Some? then left else Some(Obj(Container(kind, made), None))
      case Increment(_, now, _, _) =>
        match Incremented(left, now) {
          case Ok((_, o)) => Some(o)
          case Err(_) => left
        }
      case Read(_, _) => left
      case Remove(_) => left
  }

  ghost function GivenBy(calls: seq<Call>, log: seq<seq<Touch>>, key: string): Option<Obj>
    requires |log| == |calls|
  {
    if calls == [] then None
    else
      var n := |calls| - 1;
      Given(calls[n], log[n], key, GivenBy(calls[..n], log[..n], key))
  }

  ghost function Lookup(data: map<string, Obj>, key: string): Option<Obj> {
    if key in data then Some(data[key]) else None
  }

  lemma EnforcedKeeps(cfg: Config, memory: nat -> int, v: View, mid: View, ok: bool, key: string)
    requires Enforced(cfg, memory, v, mid, ok) && key in mid.data
    ensures key in v.data && mid.data[key] == v.data[key]
  {
  }

  lemma SparedBy(cfg: Config, memory: nat -> int, v: View, mid: View, ok: bool, h: seq<Touch>, h1: seq<Touch>,
                 touched: Option<string>)
    requires Tracks(v) && v.keys == Order(h) && Enforced(cfg, memory, v, mid, ok)
    requires Appends(h, h1, touched) && Between(mid, h1, touched.Some?)
    ensures Spared(v, mid, h1[|h|..])
  {
    hide Order;
    hide Enforced;
    hide Tracks;
    hide Spared;
    EnforcedTracks(cfg, memory, v, mid, ok);
    var t := h1[|h|..];
    var gone := if touched.Some? then t[..|t| - 1] else t;
    assert h + gone == if touched.Some? then h1[..|h1| - 1] else h1;
    assert touched.Some? ==> t == gone + [Touched(touched.value)];
    SparedByEvents(v, mid, h, gone, t);
  }

  lemma SparedByEvents(v: View, mid: View, h: seq<Touch>, gone: seq<Touch>, t: seq<Touch>)
    requires Tracks(v) && Tracks(mid) && v.keys == Order(h) && mid.keys == Order(h + gone) && OnlyForgets(gone)
    requires t == gone || exists key :: t == gone + [Touched(key)]
    ensures Spared(v, mid, t)
  {
    hide Order;
    hide NoRepeats;
    hide Falling;
    OrderWithout(h, gone, k => 0);
    assert forall k :: Forgotten(k) in t <==> Forgotten(k) in gone;
  }

  lemma EnforcedTracks(cfg: Config, memory: nat -> int, v: View, mid: View, ok: bool)
    requires Tracks(v) && Enforced(cfg, memory, v, mid, ok)
    ensures Tracks(mid)
  {
  }

  // Which keys a call leaves: those it touched, and those that were there and that it did not forget.
  lemma LeavesKeys(h: seq<Touch>, t: seq<Touch>, key: string)
    requires OneTouch(t)
    ensures key in Order(h + t) <==> Touches(t, key) || (key in Order(h) && Forgotten(key) !in t)
  {
    hide Order;
    var touched :| EndsWith(t, touched);
    if touched.Some? {
      var gone := t[..|t| - 1];
      assert t == gone + [Touched(touched.value)] && h + t == (h + gone) + [Touched(touched.value)];
      OrderWithout(h, gone, k => 0);
      OrderTouches(h + gone, touched.value);
      WithoutMembers(Order(h + gone), touched.value);
    } else {
      OrderWithout(h, t, k => 0);
    }
  }

  // The tracker's events of each call account for the keys of the store.
  ghost predicate Followed(views: seq<View>, log: seq<seq<Touch>>) {
    && |views| == |log| + 1
    && (forall i :: 0 <= i < |log| ==> OneTouch(log[i]))
    && (forall i :: 0 <= i < |views| ==> Tracks(views[i]) && views[i].keys == Order(Joined(log[..i])))
  }

  // One call gives and takes what it should.
  lemma DidGive(cfg: Config, c: Call, v: View, v1: View, t: seq<Touch>, reply: Option<Obj>, key: string)
    requires Did(cfg, c, v, v1, t, reply)
    requires key in v1.data <==> Touches(t, key) || (key in v.data && Forgotten(key) !in t)
    ensures Lookup(v1.data, key) == Given(c, t, key, Lookup(v.data, key))
  {
    hide Enforced;
    hide MoveToFront;
    hide Without;
    hide Incremented;
    match c
    case Write(k, o, memory, _) =>
      var ok, mid :| Enforced(cfg, memory, v, mid, ok) && Spared(v, mid, t) && Then(ok, mid, v1, Put(mid, k, o), k, t);
      SparedObject(cfg, memory, v, mid, ok, t, key);
    case Open(k, kind, made, memory, _) =>
      var ok, mid :| Enforced(cfg, memory, v, mid, ok) && Spared(v, mid, t)
        && Then(ok, mid, v1, Opened(mid, k, kind, made), k, t);
      SparedObject(cfg, memory, v, mid, ok, t, key);
    case Increment(k, now, memory, _) =>
      var ok, mid :| Enforced(cfg, memory, v, mid, ok) && Spared(v, mid, t) &&
        var next := Counted(mid, k, now);
        if next.Ok? then Then(ok, mid, v1, Put(mid, k, next.value.1), k, t) else v1 == mid && EndsWith(t, None);
      SparedObject(cfg, memory, v, mid, ok, t, key);
    case _ =>
  }

  lemma SparedObject(cfg: Config, memory: nat -> int, v: View, mid: View, ok: bool, t: seq<Touch>, key: string)
    requires Enforced(cfg, memory, v, mid, ok) && Spared(v, mid, t)
    ensures Lookup(mid.data, key) == if Forgotten(key) in t then None else Lookup(v.data, key)
  {
    if key in mid.data {
      EnforcedKeeps(cfg, memory, v, mid, ok, key);
    }
  }

  // ---- runs on the class ----

  ghost predicate Ran(cfg: Config, calls: seq<Call>, views: seq<View>, log: seq<seq<Touch>>,
                      replies: seq<Option<Obj>>)
  {
    && |views| == |calls| + 1 && |log| == |replies| == |calls|
    && forall i :: 0 <= i < |calls| ==> Did(cfg, calls[i], views[i], views[i + 1], log[i], replies[i])
  }

  lemma FollowedNone(v: View)
    requires v == View([], map[], 0)
    ensures Followed([v], [])
  {
  }

  lemma FollowedMore(views: seq<View>, log: seq<seq<Touch>>, v: View, t: seq<Touch>)
    requires Followed(views, log) && OneTouch(t) && Tracks(v) && v.keys == Order(Joined(log + [t]))
    ensures Followed(views + [v], log + [t])
  {
    hide Order;
    hide Tracks;
    hide OneTouch;
    forall i | 0 <= i <= |log| ensures (log + [t])[..i] == log[..i] {
    }
    assert (log + [t])[..|log| + 1] == log + [t];
  }

  // After each call of a run the store holds for every key what the calls so far gave and left it.
  lemma {:induction false} RunGives(cfg: Config, calls: seq<Call>, views: seq<View>, log: seq<seq<Touch>>,
                                    replies: seq<Option<Obj>>, i: nat, key: string)
    requires Ran(cfg, calls, views, log, replies) && Followed(views, log) && views[0].data == map[] && i <= |calls|
    ensures Lookup(views[i].data, key) == GivenBy(calls[..i], log[..i], key)
  {
    if i > 0 {
      hide Did;
      hide Order;
      hide Given;
      RunGives(cfg, calls, views, log, replies, i - 1, key);
      assert calls[..i][..i - 1] == calls[..i - 1] && log[..i][..i - 1] == log[..i - 1];
      LeavesKeys(Joined(log[..i - 1]), log[i - 1], key);
      DidGive(cfg, calls[i - 1], views[i - 1], views[i], log[i - 1], replies[i - 1], key);
    }
  }

  // So a read answers with that object, unless it has one with an expiry in the past.
  lemma ReadAnswers(cfg: Config, calls: seq<Call>, views: seq<View>, log: seq<seq<Touch>>, replies: seq<Option<Obj>>,
                    i: nat)
    requires Ran(cfg, calls, views, log, replies) && Followed(views, log) && views[0].data == map[]
    requires i < |calls| && calls[i].Read?
    ensures var o := GivenBy(calls[..i], log[..i], calls[i].key);
            replies[i] == if o.Some? && o.value.ttl.Some? && o.value.ttl.value < calls[i].now then None else o
  {
    hide Followed;
    hide GivenBy;
    hide Drop;
    hide Refresh;
    RunGives(cfg, calls, views, log, replies, i, calls[i].key);
    ReadGives(cfg, calls[i], views[i], views[i + 1], log[i], replies[i]);
  }

  lemma ReadGives(cfg: Config, c: Call, v: View, v1: View, t: seq<Touch>, reply: Option<Obj>)
    requires c.Read? && Did(cfg, c, v, v1, t, reply)
    ensures var o := Lookup(v.data, c.key);
            reply == if o.Some? && o.value.ttl.Some? && o.value.ttl.value < c.now then None else o
  {
  }

  // The call does not give the key an object: it is about another key, reads or removes it, or was refused.
  ghost predicate Leaves(c: Call, t: seq<Touch>, key: string) {
    c.key != key || c.Read? || c.Remove? || !Touches(t, key)
  }

  // What a write or a load gave stands until a later call gives the key something else, or takes it away.
  lemma {:induction false} LastWriteStands(calls: seq<Call>, log: seq<seq<Touch>>, j: nat, key: string, o: Obj)
    requires |log| == |calls| && j < |calls| && Touches(log[j], key) && calls[j].key == key
    requires match calls[j]
             case Write(_, o1, _, _) => o1 == o
             case Load(_, text, expireAt) => Obj(Text(text), expireAt) == o
             case _ => false
    requires forall i :: j < i < |calls| ==> Leaves(calls[i], log[i], key)
    ensures GivenBy(calls, log, key)
         == if exists i :: j < i < |calls| && Forgotten(key) in log[i] then None else Some(o)
  {
    var n := |calls| - 1;
    if j < n {
      LastWriteStands(calls[..n], log[..n], j, key, o);
      assert forall i :: 0 <= i < n ==> log[..n][i] == log[i];
    }
  }

  // The call enforces a limit and its reading is above it, under a volatile policy, with a key that it may not
  // evict.
  ghost predicate MayGoOn(cfg: Config, data: map<string, Obj>, c: Call) {
    && (c.Write? || c.Open? || c.Increment?) && 0 < cfg.maxMemory < c.memory(c.bound)
    && cfg.policy in {VolatileLRU, VolatileRandom, VolatileTTL}
    && exists k :: k in data && (k == "" || data[k].ttl == None)
  }

  lemma GoesOn(cfg: Config, data: map<string, Obj>, c: Call)
    ensures !Returns(cfg, data, c) <==> MayGoOn(cfg, data, c)
  {
  }

  // A new store, and the calls in turn, up to the first that does not return.
  method Drive(cfg: Config, calls: seq<Call>)
    returns (store: KVStore, n: nat, replies: seq<Option<Obj>>, ghost views: seq<View>, ghost log: seq<seq<Touch>>)
    ensures n <= |calls| && (n < |calls| ==> !Returns(cfg, store.syncMap, calls[n]))
    ensures n < |calls| ==> MayGoOn(cfg, store.syncMap, calls[n])
    ensures store.Valid()
    ensures Ran(cfg, calls[..n], views, log, replies) && views[0] == View([], map[], 0) && views[n] == store.Look()
    ensures Followed(views, log)
    ensures store.lruTracker.Keys() == Order(Joined(log))
    ensures ByLastCall(store.lruTracker.Keys(), log)
    ensures forall k :: k in store.syncMap <==> Stays(log, k)
  {
    hide Did;
    hide Order;
    hide Stays;
    hide ByLastCall;
    hide Returns;
    hide LRUTracker.Valid;
    store := new KVStore();
    views, log, replies, n := [store.Look()], [], [], 0;
    FollowedNone(store.Look());
    while n < |calls| && Returns(cfg, store.syncMap, calls[n])
      invariant n <= |calls| && store.Valid()
      invariant fresh(store) && fresh(store.lruTracker) && fresh(store.lruTracker.Nodes())
      invariant Ran(cfg, calls[..n], views, log, replies) && views[0] == View([], map[], 0) && views[n] == store.Look()
      invariant store.lruTracker.history == Joined(log) && Followed(views, log)
    {
      var reply;
      ghost var t;
      reply, t := Make(store, cfg, calls[n]);
      assert (log + [t])[..|log|] == log;
      assert calls[..n + 1] == calls[..n] + [calls[n]];
      store.KeysInOrder();
      FollowedMore(views, log, store.Look(), t);
      views, log, replies, n := views + [store.Look()], log + [t], replies + [reply], n + 1;
    }
    store.KeysInOrder();
    RunOrder(log);
    if n < |calls| {
      GoesOn(cfg, store.syncMap, calls[n]);
    }
  }

  // One call; t are the events it adds to the tracker's history.
  method Make(store: KVStore, cfg: Config, c: Call) returns (reply: Option<Obj>, ghost t: seq<Touch>)
    requires store.Valid() && Returns(cfg, store.syncMap, c)
    modifies store, store.lruTracker, store.lruTracker.Nodes()
    ensures store.Valid() && fresh(store.lruTracker.Nodes() - old(store.lruTracker.Nodes()))
    ensures Did(cfg, c, old(store.Look()), store.Look(), t, reply) && OneTouch(t)
    ensures store.lruTracker.history == old(store.lruTracker.history) + t
  {
    hide KVStore.Valid;
    hide Enforced;
    hide Without;
    hide Incremented;
    hide Spared;
    hide Order;
    hide Between;
    ghost var before, v := store.lruTracker.history, store.Look();
    store.KeysInOrder();
    store.Tracked();
    reply := None;
    match c {
      case Write(key, o, memory, bound) =>
        var ok, mid := store.Store(key, o, cfg, memory, bound);
        SparedBy(cfg, memory, v, mid, ok, before, store.lruTracker.history, if ok then Some(key) else None);
      case Read(key, now) =>
        reply := store.GetValue(key, now);
      case Open(key, kind, made, memory, bound) =>
        var ok, r, mid := store.LoadOrStore(key, kind, made, cfg, memory, bound);
        SparedBy(cfg, memory, v, mid, ok, before, store.lruTracker.history, if ok then Some(key) else None);
      case Increment(key, now, memory, bound) =>
        var ok, r, mid := store.IncrementString(key, now, cfg, memory, bound);
        SparedBy(cfg, memory, v, mid, ok, before, store.lruTracker.history, if ok && r.Ok? then Some(key) else None);
      case Load(key, text, expireAt) =>
        store.StoreRDBEntry(key, text, expireAt);
      case Remove(key) =>
        store.Delete(key);
    }
    t := store.lruTracker.history[|before|..];
    assert t == [Touched(c.key)] ==> EndsWith(t, Some(c.key));
    assert t == [Forgotten(c.key)] || t == [] ==> EndsWith(t, None);
  }
}
