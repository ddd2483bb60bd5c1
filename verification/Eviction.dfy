/** Eviction under a memory limit (internal/store/kvstore.go:254-338), on the store as a value. */
module Evictions {
  import opened StreamIDs
  import opened Lru

  datatype Kind = List | StreamKind | SortedSetKind

  // The contents of a container are another component's matter.
  datatype Value = Text(text: string) | Container(kind: Kind, content: int)

  datatype Obj = Obj(value: Value, ttl: Option<int>)

  predicate Expired(o: Obj, now: int) { o.ttl.Some? && o.ttl.value < now }

  // The key holds an object whose expiry, if it has one, has not passed.
  ghost predicate Alive(data: map<string, Obj>, key: string, now: int) {
    key in data && (data[key].ttl == None || now <= data[key].ttl.value)
  }

  datatype Policy = NoEviction | AllKeysLRU | VolatileLRU | AllKeysRandom | VolatileRandom | VolatileTTL {
    predicate Volatile() { VolatileLRU? || VolatileRandom? || VolatileTTL? }
  }

  datatype Config = Config(maxMemory: int, policy: Policy)

  // ---- the store as a value ----

  // The keys with the most recently used one first, and what they hold.
  datatype View = View(keys: seq<string>, data: map<string, Obj>, evictions: int)

  ghost predicate Tracks(v: View) {
    NoRepeats(v.keys) && forall k :: k in v.keys <==> k in v.data
  }

  ghost function Put(v: View, key: string, o: Obj): View {
    v.(keys := MoveToFront(v.keys, key), data := v.data[key := o])
  }

  ghost function Refresh(v: View, key: string): View { v.(keys := MoveToFront(v.keys, key)) }

  lemma PutAgain(v: View, key: string)
    requires key in v.data
    ensures Put(v, key, v.data[key]) == Refresh(v, key)
  {
  }

  ghost function Drop(v: View, key: string): View {
    v.(keys := Without(v.keys, key), data := v.data - {key})
  }

  ghost function Evicted(v: View, key: string): View { Drop(v, key).(evictions := v.evictions + 1) }

  predicate HasTTL(data: map<string, Obj>, key: string) { key in data && data[key].ttl.Some? }

  // A key that the policy may pick.
  ghost predicate Victim(policy: Policy, v: View, key: string) {
    match policy
    case NoEviction => false
    case AllKeysLRU => v.keys != [] && key == v.keys[|v.keys| - 1]
    case AllKeysRandom => key in v.keys
    case VolatileLRU =>
      exists p :: 0 <= p < |v.keys| && v.keys[p] == key && HasTTL(v.data, key)
                  && forall q :: p < q < |v.keys| ==> !HasTTL(v.data, v.keys[q])
    case VolatileRandom => HasTTL(v.data, key)
    case VolatileTTL => HasTTL(v.data, key) && Earliest(v.data, key)
  }

  ghost predicate Earliest(data: map<string, Obj>, key: string)
    requires HasTTL(data, key)
  {
    forall k :: HasTTL(data, k) ==> data[key].ttl.value <= data[k].ttl.value
  }

  // One eviction.  The volatile policies take the empty key for "none found".
  ghost predicate EvictsOne(policy: Policy, v: View, v1: View) {
    || (v1 == v && forall k :: !Victim(policy, v, k))
    || (exists k :: Victim(policy, v, k) && v1 == if policy.Volatile() && k == "" then v else Evicted(v, k))
  }

  // How many keys go until the memory reading, the first of which is number `from`, is within the limit.
  ghost function Rounds(memory: nat -> int, max: int, keys: nat, from: nat): (n: nat)
    ensures n <= keys
    decreases keys
  {
    if keys == 0 || memory(from) <= max then 0 else 1 + Rounds(memory, max, keys - 1, from + 1)
  }

  ghost function Keep(keys: seq<string>, kept: set<string>): seq<string> {
    if keys == [] then []
    else (if keys[0] in kept then [keys[0]] else []) + Keep(keys[1..], kept)
  }

  // v1 is v after some evictions: the rest of the keys keep their order and their objects.
  ghost predicate Reduced(v: View, v1: View) {
    && Tracks(v1)
    && (forall k :: k in v1.data ==> k in v.data && v1.data[k] == v.data[k])
    && v1.keys == Keep(v.keys, v1.data.Keys)
    && v1.evictions == v.evictions + |v.keys| - |v1.keys|
  }

  ghost predicate OnlyVolatileGone(v: View, v1: View) {
    forall k :: k in v.data && k !in v1.data ==> k != "" && HasTTL(v.data, k)
  }

  // a stands behind b: it was used less recently.
  ghost predicate Older(keys: seq<string>, a: string, b: string) {
    exists i, j :: 0 <= i < j < |keys| && keys[i] == b && keys[j] == a
  }

  // Of the keys with an expiry, those that go come before those that stay.
  ghost predicate FirstGone(policy: Policy, v: View, v1: View) {
    forall gone, kept :: HasTTL(v.data, gone) && gone !in v1.data && HasTTL(v.data, kept) && kept in v1.data ==>
      match policy
      case VolatileLRU => Older(v.keys, gone, kept)
      case VolatileTTL => v.data[gone].ttl.value <= v.data[kept].ttl.value
      case _ => true
  }

  // r readings were above the limit.  Each took a key, unless no key with an expiry was left, or an empty one
  // was in the way.
  ghost predicate Readings(cfg: Config, memory: nat -> int, v: View, v1: View, r: nat) {
    && (forall i :: 0 <= i < r ==> memory(i) > cfg.maxMemory)
    && |v.keys| - |v1.keys| <= r
    && (!HasTTL(v.data, "") ==> |v.keys| - |v1.keys| == r || forall k :: !HasTTL(v1.data, k))
  }

  // What the volatile policies leave behind.
  ghost predicate VolatileEvicted(cfg: Config, memory: nat -> int, v: View, v1: View) {
    && OnlyVolatileGone(v, v1) && FirstGone(cfg.policy, v, v1)
    && exists r: nat :: Readings(cfg, memory, v, v1, r) && (v1.keys == [] || memory(r) <= cfg.maxMemory)
  }

  // What enforcing the limit does; ok is false for the out-of-memory error.
  ghost predicate Enforced(cfg: Config, memory: nat -> int, v: View, v1: View, ok: bool) {
    if cfg.maxMemory <= 0 then ok && v1 == v
    else if cfg.policy.NoEviction? then v1 == v && (ok <==> memory(0) <= cfg.maxMemory || v.keys == [])
    else
      && ok && Reduced(v, v1)
      && (!cfg.policy.Volatile() ==> |v1.keys| == |v.keys| - Rounds(memory, cfg.maxMemory, |v.keys|, 0))
      && (cfg.policy.AllKeysLRU? ==> v1.keys <= v.keys)
      && (cfg.policy.Volatile() ==> VolatileEvicted(cfg, memory, v, v1))
  }

  // Every key may go under a volatile policy.
  predicate AllVolatile(data: map<string, Obj>) { forall k :: k in data ==> k != "" && HasTTL(data, k) }

  // The eviction loop comes to an end: by the policy, or at the reading `bound`, or because every key may go.
  predicate Ends(cfg: Config, memory: nat -> int, data: map<string, Obj>, bound: nat) {
    cfg.maxMemory <= 0 || !cfg.policy.Volatile() || memory(bound) <= cfg.maxMemory || AllVolatile(data)
  }

  lemma {:induction false} KeepAll(keys: seq<string>, kept: set<string>)
    requires forall k :: k in keys ==> k in kept
    ensures Keep(keys, kept) == keys
  {
    if keys != [] {
      assert keys[0] in keys;
      KeepAll(keys[1..], kept);
    }
  }

  // Dropping one more key from what is kept.
  lemma {:induction false} KeepWithout(keys: seq<string>, kept: set<string>, key: string)
    ensures Without(Keep(keys, kept), key) == Keep(keys, kept - {key})
  {
    if keys != [] {
      KeepWithout(keys[1..], kept, key);
      var rest := Keep(keys[1..], kept);
      if keys[0] in kept {
        assert ([keys[0]] + rest)[1..] == rest;
      } else {
        assert Keep(keys, kept) == rest;
      }
    }
  }

  lemma {:induction false} WithoutNoRepeats(keys: seq<string>, key: string)
    requires NoRepeats(keys)
    ensures NoRepeats(Without(keys, key))
    ensures |Without(keys, key)| == if key in keys then |keys| - 1 else |keys|
  {
    if key in keys {
      var p :| 0 <= p < |keys| && keys[p] == key;
      WithoutAt(keys, p);
    } else {
      WithoutAbsent(keys, key);
    }
  }

  lemma ReducedNothing(v: View)
    requires Tracks(v)
    ensures Reduced(v, v)
  {
    KeepAll(v.keys, v.data.Keys);
  }

  lemma ReducedMore(v: View, v1: View, key: string)
    requires Tracks(v) && Reduced(v, v1) && key in v1.data
    ensures Reduced(v, Evicted(v1, key)) && |Evicted(v1, key).keys| == |v1.keys| - 1
  {
    var v2 := Evicted(v1, key);
    WithoutNoRepeats(v1.keys, key);
    WithoutMembers(v1.keys, key);
    KeepWithout(v.keys, v1.data.Keys, key);
    assert v2.data.Keys == v1.data.Keys - {key};
  }

  // A victim is one of the keys.
  lemma VictimIsKey(policy: Policy, v: View, key: string)
    requires Tracks(v) && Victim(policy, v, key)
    ensures key in v.data
  {
  }

  lemma AllKeysVictims(policy: Policy, v: View)
    requires policy.AllKeysLRU? || policy.AllKeysRandom?
    ensures v.keys == [] ==> EvictsOne(policy, v, v)
    ensures policy.AllKeysLRU? && v.keys != [] ==> Victim(policy, v, v.keys[|v.keys| - 1])
    ensures policy.AllKeysRandom? ==> forall k :: k in v.keys ==> Victim(policy, v, k)
  {
  }

  lemma NothingPicked(policy: Policy, v: View)
    requires policy.Volatile()
    ensures Victim(policy, v, "") || (forall k :: !Victim(policy, v, k)) ==> EvictsOne(policy, v, v)
  {
  }

  // There is something to evict exactly when there is a key, for the volatile policies one with an expiry.
  lemma VictimExists(policy: Policy, v: View)
    requires Tracks(v) && !policy.NoEviction?
    ensures (exists k :: Victim(policy, v, k)) <==>
            if policy.Volatile() then exists k :: HasTTL(v.data, k) else v.keys != []
  {
    match policy
    case AllKeysLRU =>
      if v.keys != [] {
        assert Victim(policy, v, v.keys[|v.keys| - 1]);
      }
    case AllKeysRandom =>
      if v.keys != [] {
        assert v.keys[0] in v.keys;
        assert Victim(policy, v, v.keys[0]);
      }
    case VolatileLRU =>
      if k :| HasTTL(v.data, k) {
        var p := |v.keys| - 1;
        while !HasTTL(v.data, v.keys[p])
          decreases p
          invariant 0 <= p < |v.keys| && forall q :: p < q < |v.keys| ==> !HasTTL(v.data, v.keys[q])
        {
          p := p - 1;
        }
        assert Victim(policy, v, v.keys[p]);
      }
    case VolatileRandom =>
      if k :| HasTTL(v.data, k) {
        assert Victim(policy, v, k);
      }
    case VolatileTTL =>
      if k :| HasTTL(v.data, k) {
        var least := EarliestExists(v.data, v.data.Keys, k);
        assert Victim(policy, v, least);
      }
  }

  lemma {:induction false} EarliestExists(data: map<string, Obj>, among: set<string>, some: string)
    returns (least: string)
    requires among <= data.Keys && some in among && HasTTL(data, some)
    ensures least in among && HasTTL(data, least)
    ensures forall k :: k in among && HasTTL(data, k) ==> data[least].ttl.value <= data[k].ttl.value
    decreases among
  {
    if k :| k in among && k != some && HasTTL(data, k) {
      if data[k].ttl.value <= data[some].ttl.value {
        least := EarliestExists(data, among - {some}, k);
      } else {
        least := EarliestExists(data, among - {k}, some);
      }
    } else {
      least := some;
    }
  }

  // ---- the empty key ----

  // The empty key blocks the volatile policies: it is found, and then taken for nothing.
  lemma EmptyKeyBlocks(v: View, v1: View)
    requires v == View(["b", ""], map["" := Obj(Text("x"), Some(5)), "b" := Obj(Text("y"), Some(9))], 0)
    ensures EvictsOne(VolatileLRU, v, v1) <==> v1 == v
  {
    assert Victim(VolatileLRU, v, v.keys[1]);
    assert v.keys == ["b", ""];
  }

  // The empty key has an expiry, and the policy comes to it before any other key with one.
  ghost predicate EmptyKeyFirst(policy: Policy, v: View) {
    && HasTTL(v.data, "")
    && match policy
       case VolatileLRU => forall i, j :: 0 <= i < j < |v.keys| && v.keys[i] == "" ==> !HasTTL(v.data, v.keys[j])
       case VolatileTTL => forall k :: HasTTL(v.data, k) ==> v.data[""].ttl.value <= v.data[k].ttl.value
       case _ => true
  }

  // While some key has an expiry, a volatile policy is sure to evict one if and only if it cannot come to the
  // empty key first.
  lemma EvictsUnlessEmptyFirst(policy: Policy, v: View)
    requires policy.Volatile() && Tracks(v) && exists k :: HasTTL(v.data, k)
    ensures (forall v1 :: EvictsOne(policy, v, v1) ==> v1 != v) <==> !EmptyKeyFirst(policy, v)
  {
    VictimExists(policy, v);
    EmptyVictim(policy, v);
    if Victim(policy, v, "") {
      NothingPicked(policy, v);
    } else {
      forall v1 | EvictsOne(policy, v, v1) ensures v1 != v {
        var k :| Victim(policy, v, k) && v1 == Evicted(v, k);
        VictimIsKey(policy, v, k);
      }
    }
  }

  lemma EmptyVictim(policy: Policy, v: View)
    requires policy.Volatile() && Tracks(v)
    ensures Victim(policy, v, "") <==> EmptyKeyFirst(policy, v)
  {
    if HasTTL(v.data, "") {
      assert "" in v.keys;
    }
  }

  // ---- the loop ----

  // The eviction loop after i readings.
  ghost predicate Evicting(cfg: Config, memory: nat -> int, v: View, v1: View, i: nat) {
    && Tracks(v) && Reduced(v, v1)
    && (cfg.policy.NoEviction? ==> v1 == v && i == 0)
    && (cfg.policy.AllKeysLRU? ==> v1.keys <= v.keys)
    && (cfg.policy.Volatile() ==>
          OnlyVolatileGone(v, v1) && FirstGone(cfg.policy, v, v1) && Readings(cfg, memory, v, v1, i))
    && (!cfg.policy.Volatile() && !cfg.policy.NoEviction? ==>
          Rounds(memory, cfg.maxMemory, |v.keys|, 0)
          == |v.keys| - |v1.keys| + Rounds(memory, cfg.maxMemory, |v1.keys|, i))
  }

  lemma EvictingStart(cfg: Config, memory: nat -> int, v: View)
    requires Tracks(v)
    ensures Evicting(cfg, memory, v, v, 0)
    ensures cfg.maxMemory <= 0 ==> Enforced(cfg, memory, v, v, true)
  {
    hide Keep;
    ReducedNothing(v);
  }

  lemma EvictingEnd(cfg: Config, memory: nat -> int, v: View, v1: View, i: nat)
    requires Evicting(cfg, memory, v, v1, i) && cfg.maxMemory > 0
    requires v1.keys == [] || memory(i) <= cfg.maxMemory
    ensures Enforced(cfg, memory, v, v1, true)
  {
    hide Reduced;
    hide FirstGone;
    hide OnlyVolatileGone;
    if cfg.policy.Volatile() {
      assert Readings(cfg, memory, v, v1, i);
    }
  }

  lemma EvictingRefused(cfg: Config, memory: nat -> int, v: View, v1: View, i: nat)
    requires Evicting(cfg, memory, v, v1, i) && cfg.maxMemory > 0
    requires cfg.policy.NoEviction? && memory(i) > cfg.maxMemory && v1.keys != []
    ensures Enforced(cfg, memory, v, v1, false)
  {
  }

  // One eviction from a store with keys takes a victim or, under a volatile policy, nothing.
  lemma EvictsWhat(policy: Policy, v1: View, v2: View)
    requires Tracks(v1) && EvictsOne(policy, v1, v2) && !policy.NoEviction? && v1.keys != []
    ensures if v2 == v1
            then policy.Volatile() && (HasTTL(v1.data, "") || forall k :: !HasTTL(v1.data, k))
            else exists k :: Victim(policy, v1, k) && v2 == Evicted(v1, k) && !(policy.Volatile() && k == "")
  {
    hide Without;
    VictimExists(policy, v1);
    if k :| Victim(policy, v1, k) && v2 == if policy.Volatile() && k == "" then v1 else Evicted(v1, k) {
      VictimIsKey(policy, v1, k);
    }
  }

  lemma VictimHasTTL(policy: Policy, v: View, k: string)
    requires Victim(policy, v, k) && policy.Volatile()
    ensures HasTTL(v.data, k)
  {
  }

  lemma EvictingStep(cfg: Config, memory: nat -> int, v: View, v1: View, v2: View, i: nat)
    requires Evicting(cfg, memory, v, v1, i) && EvictsOne(cfg.policy, v1, v2)
    requires !cfg.policy.NoEviction? && memory(i) > cfg.maxMemory && v1.keys != []
    ensures Evicting(cfg, memory, v, v2, i + 1)
    ensures !cfg.policy.Volatile() || AllVolatile(v.data) ==> |v2.keys| < |v1.keys|
  {
    hide EvictsOne;
    hide Victim;
    hide Keep;
    hide Without;
    hide NoRepeats;
    hide FirstGone;
    EvictsWhat(cfg.policy, v1, v2);
    if v2 == v1 {
      StillEvicting(v, v1);
    } else {
      var k :| Victim(cfg.policy, v1, k) && v2 == Evicted(v1, k) && !(cfg.policy.Volatile() && k == "");
      VictimIsKey(cfg.policy, v1, k);
      ReducedMore(v, v1, k);
      if cfg.policy.AllKeysLRU? {
        LastGone(cfg.policy, v1, k);
      } else if cfg.policy.Volatile() {
        VictimHasTTL(cfg.policy, v1, k);
        FirstGoes(cfg.policy, v, v1, k);
      }
    }
  }

  // Where nothing goes, some key may not go.
  lemma StillEvicting(v: View, v1: View)
    requires Tracks(v) && Reduced(v, v1) && v1.keys != []
    requires HasTTL(v1.data, "") || forall k :: !HasTTL(v1.data, k)
    ensures !AllVolatile(v.data)
    ensures HasTTL(v1.data, "") ==> HasTTL(v.data, "")
  {
    if HasTTL(v1.data, "") {
      assert "" in v.data;
    } else {
      var k := v1.keys[0];
      assert k in v1.keys && k in v1.data && !HasTTL(v1.data, k);
      assert k in v.data && !HasTTL(v.data, k);
    }
  }

  lemma LastGone(policy: Policy, v: View, k: string)
    requires Tracks(v) && policy.AllKeysLRU? && Victim(policy, v, k)
    ensures Evicted(v, k).keys == v.keys[..|v.keys| - 1]
  {
    WithoutAt(v.keys, |v.keys| - 1);
  }

  // What is kept keeps its order.
  lemma {:induction false} KeepOlder(keys: seq<string>, kept: set<string>, i: nat, j: nat)
    requires i < j < |keys| && keys[i] in kept && keys[j] in kept
    ensures Older(Keep(keys, kept), keys[j], keys[i])
    decreases |keys|
  {
    var rest := Keep(keys[1..], kept);
    if i == 0 {
      KeepHas(keys[1..], kept, j - 1);
      var q :| 0 <= q < |rest| && rest[q] == keys[j];
      assert Keep(keys, kept)[0] == keys[0] && Keep(keys, kept)[q + 1] == keys[j];
    } else {
      KeepOlder(keys[1..], kept, i - 1, j - 1);
      var p, q :| 0 <= p < q < |rest| && rest[p] == keys[i] && rest[q] == keys[j];
      var n := if keys[0] in kept then 1 else 0;
      assert Keep(keys, kept)[p + n] == keys[i] && Keep(keys, kept)[q + n] == keys[j];
    }
  }

  lemma {:induction false} KeepHas(keys: seq<string>, kept: set<string>, j: nat)
    requires j < |keys| && keys[j] in kept
    ensures keys[j] in Keep(keys, kept)
    decreases |keys|
  {
    if j > 0 {
      KeepHas(keys[1..], kept, j - 1);
    }
  }

  // A key that stays with an expiry is not behind the victim.
  lemma VictimIsOldest(v: View, v1: View, k: string, kept: string)
    requires Tracks(v) && Reduced(v, v1) && Victim(VolatileLRU, v1, k)
    requires HasTTL(v1.data, kept) && kept != k
    ensures Older(v.keys, k, kept)
  {
    var p :| 0 <= p < |v1.keys| && v1.keys[p] == k && forall q :: p < q < |v1.keys| ==> !HasTTL(v1.data, v1.keys[q]);
    assert k in v1.keys && kept in v1.keys;
    assert k in v.keys && kept in v.keys;
    var i :| 0 <= i < |v.keys| && v.keys[i] == k;
    var j :| 0 <= j < |v.keys| && v.keys[j] == kept;
    if i < j {
      KeepOlder(v.keys, v1.data.Keys, i, j);
    }
  }

  lemma FirstGoes(policy: Policy, v: View, v1: View, k: string)
    requires policy.Volatile() && Tracks(v) && Reduced(v, v1) && FirstGone(policy, v, v1) && Victim(policy, v1, k)
    ensures FirstGone(policy, v, Evicted(v1, k))
  {
    hide Older;
    hide Keep;
    hide Without;
    hide NoRepeats;
    var v2 := Evicted(v1, k);
    forall gone, kept | HasTTL(v.data, gone) && gone !in v2.data && HasTTL(v.data, kept) && kept in v2.data
      ensures policy.VolatileLRU? ==> Older(v.keys, gone, kept)
      ensures policy.VolatileTTL? ==> v.data[gone].ttl.value <= v.data[kept].ttl.value
    {
      if gone == k && policy.VolatileLRU? {
        VictimIsOldest(v, v1, k, kept);
      }
    }
  }

  // Without the guard the loop never ends: whatever a volatile policy has evicted, a key is left, and the
  // readings stay above the limit.
  lemma GoesOnForever(cfg: Config, memory: nat -> int, v: View, v1: View, i: nat)
    requires forall bound :: !Ends(cfg, memory, v.data, bound)
    requires Evicting(cfg, memory, v, v1, i)
    ensures v1.keys != [] && memory(i) > cfg.maxMemory
  {
    assert !Ends(cfg, memory, v.data, i);
    var k :| k in v.data && !(k != "" && HasTTL(v.data, k));
    assert k in v1.data;
    assert k in v1.keys;
  }

  // The evictions stop at the first reading within the limit.
  lemma {:induction false} RoundsAreNeeded(memory: nat -> int, max: int, keys: nat, from: nat)
    ensures var n := Rounds(memory, max, keys, from);
            && (forall i :: from <= i < from + n ==> memory(i) > max)
            && (n < keys ==> memory(from + n) <= max)
    decreases keys
  {
    if keys > 0 && memory(from) > max {
      RoundsAreNeeded(memory, max, keys - 1, from + 1);
    }
  }

  // Under allkeys-lru every evicted key was touched for the last time before every key that stays.
  lemma OldestGoFirst(cfg: Config, memory: nat -> int, v: View, v1: View, history: seq<Touch>)
    requires Tracks(v) && v.keys == Order(history) && cfg.policy.AllKeysLRU? && cfg.maxMemory > 0
    requires Enforced(cfg, memory, v, v1, true)
    ensures v1.keys == v.keys[..|v.keys| - Rounds(memory, cfg.maxMemory, |v.keys|, 0)]
    ensures forall gone, kept :: gone in v.data && gone !in v1.data && kept in v1.data ==>
              LastTime(history, gone) < LastTime(history, kept)
    ensures forall k :: k in v1.data ==> v1.data[k] == v.data[k]
  {
    hide LastTime;
    hide Order;
    hide Rounds;
    hide Keep;
    LastTouchOrder(history);
    assert v1.keys <= v.keys;
    forall gone, kept | gone in v.data && gone !in v1.data && kept in v1.data
      ensures LastTime(history, gone) < LastTime(history, kept)
    {
      BehindPrefix(v.keys, v1.keys, gone, kept, history);
    }
  }

  lemma BehindPrefix(keys: seq<string>, front: seq<string>, gone: string, kept: string, history: seq<Touch>)
    requires front <= keys && gone in keys && gone !in front && kept in front && ByLastTime(keys, history)
    ensures LastTime(history, gone) < LastTime(history, kept)
  {
    hide LastTime;
    var i :| 0 <= i < |keys| && keys[i] == gone;
    var j :| 0 <= j < |front| && front[j] == kept;
    assert keys[j] == kept;
  }

  // Only keys with an expiry go.  Under volatile-lru they were touched for the last time before every key with
  // an expiry that stays; under volatile-ttl they expire no later than those.
  lemma VolatileOrder(cfg: Config, memory: nat -> int, v: View, v1: View, history: seq<Touch>)
    requires Tracks(v) && v.keys == Order(history) && cfg.policy.Volatile() && cfg.maxMemory > 0
    requires Enforced(cfg, memory, v, v1, true)
    ensures forall gone :: gone in v.data && gone !in v1.data ==> gone != "" && HasTTL(v.data, gone)
    ensures forall gone, kept :: gone in v.data && gone !in v1.data && HasTTL(v1.data, kept) ==>
              && (cfg.policy.VolatileLRU? ==> LastTime(history, gone) < LastTime(history, kept))
              && (cfg.policy.VolatileTTL? ==> v.data[gone].ttl.value <= v.data[kept].ttl.value)
  {
    hide LastTime;
    hide Order;
    hide Reduced;
    hide Readings;
    hide Older;
    LastTouchOrder(history);
    forall gone, kept | Older(v.keys, gone, kept) ensures LastTime(history, gone) < LastTime(history, kept) {
      OlderTouch(v.keys, gone, kept, history);
    }
    KeptBefore(v, v1);
  }

  lemma OlderTouch(keys: seq<string>, a: string, b: string, history: seq<Touch>)
    requires Older(keys, a, b) && ByLastTime(keys, history)
    ensures LastTime(history, a) < LastTime(history, b)
  {
    hide LastTime;
    var i, j :| 0 <= i < j < |keys| && keys[i] == b && keys[j] == a;
  }

  lemma KeptBefore(v: View, v1: View)
    requires Reduced(v, v1)
    ensures forall k :: HasTTL(v1.data, k) ==> HasTTL(v.data, k) && k in v1.data
  {
  }
}
