/** The recency tracker (internal/datastructure/lru.go): a doubly linked list of keys, most recent first,
    and a map from keys to their nodes. */
module Lru {
  import opened StreamIDs

  // ---- what the list means: the keys by last touch ----

  datatype Touch = Touched(key: string) | Forgotten(key: string)

  ghost function Without(keys: seq<string>, key: string): (r: seq<string>)
  {
    if keys == [] then []
    else (if keys[0] == key then [] else [keys[0]]) + Without(keys[1..], key)
  }

  ghost function MoveToFront(keys: seq<string>, key: string): seq<string> { [key] + Without(keys, key) }

  // The order that a history of touches leaves behind.
  ghost function Order(history: seq<Touch>): seq<string> {
    if history == [] then []
    else
      var before := Order(history[..|history| - 1]);
      match history[|history| - 1]
      case Touched(key) => MoveToFront(before, key)
      case Forgotten(key) => Without(before, key)
  }

  lemma OrderTouches(history: seq<Touch>, key: string)
    ensures Order(history + [Touched(key)]) == MoveToFront(Order(history), key)
  {
    var h := history + [Touched(key)];
    assert h[..|h| - 1] == history;
  }

  lemma OrderForgets(history: seq<Touch>, key: string)
    ensures Order(history + [Forgotten(key)]) == Without(Order(history), key)
  {
    var h := history + [Forgotten(key)];
    assert h[..|h| - 1] == history;
  }

  ghost predicate OnlyForgets(t: seq<Touch>) { forall i :: 0 <= i < |t| ==> t[i].Forgotten? }

  // Keys are forgotten first; the last event is the touch of a key, if there is one at all.
  ghost predicate EndsWith(t: seq<Touch>, touched: Option<string>) {
    match touched
    case None => OnlyForgets(t)
    case Some(key) => t != [] && t[|t| - 1] == Touched(key) && OnlyForgets(t[..|t| - 1])
  }

  // h1 is the history h with such events behind it.
  ghost predicate Appends(h: seq<Touch>, h1: seq<Touch>, touched: Option<string>) {
    h <= h1 && EndsWith(h1[|h|..], touched)
  }

  lemma AppendsTouch(h: seq<Touch>, h1: seq<Touch>, key: string)
    requires Appends(h, h1, None)
    ensures Appends(h, h1 + [Touched(key)], Some(key))
  {
    var t := h1[|h|..];
    assert (h1 + [Touched(key)])[|h|..] == t + [Touched(key)];
    assert (t + [Touched(key)])[..|t|] == t;
  }

  // When the key was last touched or forgotten; -1 for never.
  ghost function LastTime(history: seq<Touch>, key: string): (t: int)
    ensures -1 <= t < |history|
    ensures t >= 0 ==> history[t].key == key
  {
    if history == [] then -1
    else if history[|history| - 1].key == key then |history| - 1
    else LastTime(history[..|history| - 1], key)
  }

  ghost predicate Live(history: seq<Touch>, key: string) {
    LastTime(history, key) >= 0 && history[LastTime(history, key)].Touched?
  }

  lemma {:induction false} WithoutMembers(keys: seq<string>, key: string)
    ensures forall k :: k in Without(keys, key) <==> k in keys && k != key
  {
    if keys != [] {
      WithoutMembers(keys[1..], key);
      assert forall k :: k in keys <==> k == keys[0] || k in keys[1..];
    }
  }

  ghost predicate Falling(keys: seq<string>, rank: string -> int) {
    forall i, j :: 0 <= i < j < |keys| ==> rank(keys[i]) > rank(keys[j])
  }

  lemma {:induction false} WithoutKeepsOrder(keys: seq<string>, key: string, rank: string -> int)
    requires Falling(keys, rank)
    ensures Falling(Without(keys, key), rank)
  {
    if keys != [] {
      WithoutKeepsOrder(keys[1..], key, rank);
      WithoutMembers(keys[1..], key);
      var rest := Without(keys[1..], key);
      forall j | 0 <= j < |rest| ensures rank(keys[0]) > rank(rest[j]) {
        assert rest[j] in keys[1..];
      }
    }
  }

  // The keys stand in the order of their last touches, the latest in front.
  ghost predicate ByLastTime(keys: seq<string>, history: seq<Touch>) {
    forall i, j :: 0 <= i < j < |keys| ==> LastTime(history, keys[i]) > LastTime(history, keys[j])
  }

  // The tracked keys are the ones whose last event is a touch, by the time of that touch.
  lemma {:induction false} LastTouchOrder(history: seq<Touch>)
    ensures forall k :: k in Order(history) <==> Live(history, k)
    ensures ByLastTime(Order(history), history)
    decreases |history|
  {
    if history != [] {
      var h, last := history[..|history| - 1], history[|history| - 1];
      var before := Order(h);
      LastTouchOrder(h);
      WithoutMembers(before, last.key);
      WithoutKeepsOrder(before, last.key, k => LastTime(h, k));
      var rest := Without(before, last.key);
      assert forall k :: k != last.key ==> LastTime(history, k) == LastTime(h, k);
      assert ByLastTime(Order(history), history) by {
        forall i, j | 0 <= i < j < |rest| ensures LastTime(history, rest[i]) > LastTime(history, rest[j]) {
          assert rest[i] in rest && rest[j] in rest;
        }
        forall j | 0 <= j < |rest| ensures LastTime(history, last.key) > LastTime(history, rest[j]) {
          assert rest[j] in rest;
        }
      }
      hide ByLastTime;
      forall k ensures k in Order(history) <==> Live(history, k) {
        if k != last.key {
          assert k in Order(history) <==> k in before;
        }
      }
    }
  }

  ghost predicate NoRepeats(keys: seq<string>) {
    forall i, j :: 0 <= i < j < |keys| ==> keys[i] != keys[j]
  }

  // Removing the key at a position of a list without repetitions.
  lemma {:induction false} WithoutAt(keys: seq<string>, p: nat)
    requires NoRepeats(keys) && p < |keys|
    ensures Without(keys, keys[p]) == keys[..p] + keys[p + 1..]
  {
    if p == 0 {
      WithoutAbsent(keys[1..], keys[0]);
    } else {
      WithoutAt(keys[1..], p - 1);
      assert keys[1..][..p - 1] == keys[1..p] && keys[1..][p - 1 + 1..] == keys[p + 1..];
      assert keys[..p] == [keys[0]] + keys[1..p];
    }
  }

  lemma {:induction false} WithoutAbsent(keys: seq<string>, key: string)
    requires key !in keys
    ensures Without(keys, key) == keys
  {
    if keys != [] {
      assert keys[0] in keys;
      WithoutAbsent(keys[1..], key);
    }
  }

  // ---- the linked list ----

  class LruNode {
    const key: string
    var prev: LruNode?
    var next: LruNode?

    constructor (key: string)
      ensures this.key == key && prev == null && next == null
    {
      this.key := key;
      prev := null;
      next := null;
    }
  }

  ghost function At(chain: seq<LruNode>, i: int): LruNode? {
    if 0 <= i < |chain| then chain[i] else null
  }

  ghost predicate NodeOk(chain: seq<LruNode>, i: int)
    requires 0 <= i < |chain|
    reads chain
  {
    chain[i].prev == At(chain, i - 1) && chain[i].next == At(chain, i + 1)
  }

  // The node points to its neighbours once the one at position p is left out.
  ghost predicate PastOk(chain: seq<LruNode>, p: int, k: int)
    requires 0 <= k < |chain|
    reads chain
  {
    && chain[k].prev == At(chain, if k == p + 1 then p - 1 else k - 1)
    && chain[k].next == At(chain, if k == p - 1 then p + 1 else k + 1)
  }

  lemma PastLinked(chain: seq<LruNode>, p: nat)
    requires p < |chain|
    requires forall k {:trigger PastOk(chain, p, k)} :: 0 <= k < |chain| && k != p ==> PastOk(chain, p, k)
    ensures Linked(chain[..p] + chain[p + 1..])
  {
    var rest := chain[..p] + chain[p + 1..];
    forall i | 0 <= i < |rest| ensures NodeOk(rest, i) {
      assert PastOk(chain, p, if i < p then i else i + 1);
    }
  }

  // Leaving out a node leaves the other keys, and the ends are what they are behind the gap.
  lemma PastEnds(chain: seq<LruNode>, p: nat)
    requires p < |chain| && Distinct(chain)
    ensures var rest := chain[..p] + chain[p + 1..];
            && Distinct(rest) && chain[p] !in rest && (forall i :: 0 <= i < |rest| ==> rest[i].key != chain[p].key)
            && At(rest, 0) == At(chain, if p == 0 then 1 else 0)
            && At(rest, |rest| - 1) == At(chain, if p == |chain| - 1 then p - 1 else |chain| - 1)
  {
    var rest := chain[..p] + chain[p + 1..];
    assert forall i :: 0 <= i < |rest| ==> rest[i] == chain[if i < p then i else i + 1];
  }

  // Each node points to its neighbours.
  ghost predicate Linked(chain: seq<LruNode>)
    reads chain
  {
    forall i {:trigger NodeOk(chain, i)} :: 0 <= i < |chain| ==> NodeOk(chain, i)
  }

  ghost predicate Distinct(chain: seq<LruNode>) {
    forall i, j :: 0 <= i < j < |chain| ==> chain[i].key != chain[j].key
  }

  ghost function KeysOf(chain: seq<LruNode>): (r: seq<string>)
    ensures |r| == |chain|
    ensures forall i :: 0 <= i < |chain| ==> r[i] == chain[i].key
  {
    seq(|chain|, i requires 0 <= i < |chain| => chain[i].key)
  }

  // The map finds exactly the nodes of the list.
  ghost predicate Mapped(nodes: map<string, LruNode>, chain: seq<LruNode>) {
    && (forall k :: k in nodes ==> k in KeysOf(chain))
    && (forall i :: 0 <= i < |chain| ==> chain[i].key in nodes && nodes[chain[i].key] == chain[i])
  }

  lemma KeysWithout(chain: seq<LruNode>, p: nat)
    requires Distinct(chain) && p < |chain|
    ensures KeysOf(chain[..p] + chain[p + 1..]) == Without(KeysOf(chain), chain[p].key)
  {
    WithoutAt(KeysOf(chain), p);
  }

  lemma KeysCons(node: LruNode, chain: seq<LruNode>)
    ensures KeysOf([node] + chain) == [node.key] + KeysOf(chain)
  {
  }

  lemma FoundAt(nodes: map<string, LruNode>, chain: seq<LruNode>, key: string) returns (p: nat)
    requires Mapped(nodes, chain) && key in nodes
    ensures p < |chain| && chain[p] == nodes[key] && chain[p].key == key
  {
    p :| p < |chain| && KeysOf(chain)[p] == key;
  }

  lemma MappedAbsent(nodes: map<string, LruNode>, chain: seq<LruNode>, key: string)
    requires Mapped(nodes, chain) && key !in nodes
    ensures key !in KeysOf(chain) && forall i :: 0 <= i < |chain| ==> chain[i].key != key
  {
  }

  lemma MappedCons(nodes: map<string, LruNode>, chain: seq<LruNode>, node: LruNode)
    requires Mapped(nodes, chain) && node.key !in nodes
    ensures Mapped(nodes[node.key := node], [node] + chain)
  {
    KeysCons(node, chain);
    assert forall k :: k in [node.key] + KeysOf(chain) <==> k == node.key || k in KeysOf(chain);
  }

  lemma MappedWithout(nodes: map<string, LruNode>, chain: seq<LruNode>, p: nat)
    requires Mapped(nodes, chain) && Distinct(chain) && p < |chain|
    ensures Mapped(nodes - {chain[p].key}, chain[..p] + chain[p + 1..])
  {
    KeysWithout(chain, p);
    WithoutMembers(KeysOf(chain), chain[p].key);
  }

  lemma MappedAgain(nodes: map<string, LruNode>, key: string)
    requires key in nodes
    ensures (nodes - {key})[key := nodes[key]] == nodes
  {
  }

  class LRUTracker {
    var head: LruNode?
    var tail: LruNode?
    var nodes: map<string, LruNode>
    var size: int
    ghost var chain: seq<LruNode>
    ghost var history: seq<Touch>

    ghost predicate Shape()
      reads this`head, this`tail, this`chain, chain
    {
      && Linked(chain) && Distinct(chain)
      && head == At(chain, 0) && tail == At(chain, |chain| - 1)
    }

    ghost predicate Valid()
      reads this, chain
    {
      Shape() && Mapped(nodes, chain) && size == |chain| && KeysOf(chain) == Order(history)
    }

    ghost function Nodes(): set<LruNode>
      reads this
    {
      set n | n in chain
    }

    // The keys, the most recent first.
    ghost function Keys(): seq<string>
      reads this
    {
      KeysOf(chain)
    }

    constructor ()
      ensures Valid() && Keys() == [] && history == [] && chain == []
    {
      head, tail, nodes, size := null, null, map[], 0;
      chain, history := [], [];
    }

    method Access(key: string)
      requires Valid()
      modifies this, Nodes()
      ensures Valid() && fresh(Nodes() - old(Nodes()))
      ensures history == old(history) + [Touched(key)]
      ensures Keys() == MoveToFront(old(Keys()), key)
    {
      hide Linked;
      hide Mapped;
      hide Distinct;
      hide MoveToFront;
      hide Order;
      hide Shape;
      OrderTouches(history, key);
      if key in nodes {
        MoveNode(key);
      } else {
        InsertNew(key);
      }
      history := history + [Touched(key)];
    }

    method MoveNode(key: string)
      requires Valid() && key in nodes
      modifies this, Nodes()
      ensures Shape() && Mapped(nodes, chain) && size == |chain| && history == old(history)
      ensures Nodes() <= old(Nodes())
      ensures Keys() == MoveToFront(old(Keys()), key)
    {
      hide Linked;
      hide Mapped;
      hide Distinct;
      hide Without;
      hide KeysOf;
      ghost var p := FoundAt(nodes, chain, key);
      var node := nodes[key];
      KeysWithout(chain, p);
      MappedWithout(nodes, chain, p);
      ghost var rest := chain[..p] + chain[p + 1..];
      KeysCons(node, rest);
      MappedCons(nodes - {key}, rest, node);
      MappedAgain(nodes, key);
      RemoveFromList(node, p);
      AddToHead(node);
    }

    method Remove(key: string)
      requires Valid()
      modifies this, Nodes()
      ensures Valid() && Nodes() <= old(Nodes())
      ensures history == old(history) + [Forgotten(key)]
      ensures Keys() == Without(old(Keys()), key)
    {
      hide Linked;
      hide Mapped;
      hide Distinct;
      hide Without;
      OrderForgets(history, key);
      hide Order;
      if key in nodes {
        ghost var p := FoundAt(nodes, chain, key);
        var node := nodes[key];
        KeysWithout(chain, p);
        MappedWithout(nodes, chain, p);
        RemoveFromList(node, p);
        nodes := nodes - {key};
        size := size - 1;
      } else {
        MappedAbsent(nodes, chain, key);
        WithoutAbsent(Keys(), key);
      }
      history := history + [Forgotten(key)];
    }

    method PeekLRU() returns (r: Option<string>)
      requires Valid()
      ensures r == if Keys() == [] then None else Some(Keys()[|Keys()| - 1])
    {
      hide Linked;
      hide Mapped;
      if tail == null {
        return None;
      }
      return Some(tail.key);
    }

    method PeekRandom() returns (r: Option<string>)
      requires Valid()
      ensures if Keys() == [] then r == None else r.Some? && r.value in Keys()
    {
      hide Linked;
      if nodes.Keys == {} {
        return None;
      }
      var key :| key in nodes;
      return Some(key);
    }

    // Walks from the least recent key towards the most recent until `stop` holds; gives the key it stopped at.
    method IterateFromLRU(stop: string -> bool) returns (r: Option<string>)
      requires Valid()
      ensures r.None? ==> forall k :: k in Keys() ==> !stop(k)
      ensures r.Some? ==> exists p :: 0 <= p < |Keys()| && Keys()[p] == r.value && stop(r.value)
                                      && forall q :: p < q < |Keys()| ==> !stop(Keys()[q])
    {
      hide Mapped;
      var node := tail;
      ghost var p := |chain| - 1;
      while node != null
        invariant -1 <= p < |chain| && node == At(chain, p)
        invariant forall q :: p < q < |chain| ==> !stop(Keys()[q])
        decreases p
      {
        assert NodeOk(chain, p);
        var toward := node.prev;
        if stop(node.key) {
          assert Keys()[p] == node.key;
          return Some(node.key);
        }
        node := toward;
        p := p - 1;
      }
      return None;
    }

    method Len() returns (n: int)
      requires Valid()
      ensures n == |Keys()|
    {
      n := size;
    }

    method InsertNew(key: string)
      requires Valid() && key !in nodes
      modifies this, Nodes()
      ensures Shape() && Mapped(nodes, chain) && size == |chain| && history == old(history)
      ensures fresh(Nodes() - old(Nodes()))
      ensures Keys() == MoveToFront(old(Keys()), key)
    {
      hide Linked;
      hide Mapped;
      hide Distinct;
      hide Without;
      var node := new LruNode(key);
      MappedAbsent(nodes, chain, key);
      MappedCons(nodes, chain, node);
      KeysCons(node, chain);
      WithoutAbsent(Keys(), key);
      nodes := nodes[key := node];
      AddToHead(node);
      size := size + 1;
    }

    method AddToHead(node: LruNode)
      requires Shape() && node !in chain && forall i :: 0 <= i < |chain| ==> chain[i].key != node.key
      modifies `head, `tail, `chain, node, Nodes()
      ensures Shape() && chain == [node] + old(chain)
    {
      ghost var was := chain;
      assert was != [] ==> NodeOk(was, 0);
      node.prev := null;
      node.next := head;
      if head != null {
        head.prev := node;
      }
      head := node;
      if tail == null {
        tail := node;
      }
      chain := [node] + chain;
      forall i | 0 <= i < |chain| ensures NodeOk(chain, i) {
        if i > 0 {
          assert old(NodeOk(was, i - 1));
        }
      }
    }

    // Cuts the node out and joins its neighbours.
    method RemoveFromList(node: LruNode, ghost p: nat)
      requires Shape() && p < |chain| && chain[p] == node
      modifies `head, `tail, `chain, Nodes()
      ensures Shape() && chain == old(chain)[..p] + old(chain)[p + 1..]
      ensures node !in chain && forall i :: 0 <= i < |chain| ==> chain[i].key != node.key
    {
      hide Linked;
      hide Distinct;
      hide At;
      PassBy(node, p);
      PastLinked(chain, p);
      PastEnds(chain, p);
      chain := chain[..p] + chain[p + 1..];
    }

    // The pointer work of a removal.
    method PassBy(node: LruNode, ghost p: nat)
      requires Shape() && p < |chain| && chain[p] == node
      modifies `head, `tail, Nodes()
      ensures forall k {:trigger PastOk(chain, p, k)} :: 0 <= k < |chain| && k != p ==> PastOk(chain, p, k)
      ensures head == At(chain, if p == 0 then 1 else 0)
      ensures tail == At(chain, if p == |chain| - 1 then p - 1 else |chain| - 1)
    {
      assert NodeOk(chain, p);
      if node.prev != null {
        node.prev.next := node.next;
      } else {
        head := node.next;
      }
      if node.next != null {
        node.next.prev := node.prev;
      } else {
        tail := node.prev;
      }
      node.prev := null;
      node.next := null;
      forall k | 0 <= k < |chain| && k != p ensures PastOk(chain, p, k) {
        assert old(NodeOk(chain, k));
      }
    }
  }
}
