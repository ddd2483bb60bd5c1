/** The skip list with spans (internal/datastructure/skiplist.go).
    The pointers are real; the ghost sequence `nodes` lists them in order, head first, so that the
    rank of an element is its index in `nodes`, and `heights` says how tall each one is. */
module SkipLists {
  import opened Orders
  import opened Levels
  import opened Links

  class SkipNode<T> {
    const val: T
    var forward: seq<SkipNode?<T>>
    var skips: seq<int>

    constructor (val: T, forwards: nat)
      ensures this.val == val
      ensures |forward| == forwards && forall i :: 0 <= i < forwards ==> forward[i] == null
      ensures |skips| == forwards
    {
      this.val := val;
      forward := seq(forwards, _ => null);
      skips := seq(forwards, _ => 0);
    }

    method GetNextNodeAtLevel(level: nat) returns (n: SkipNode?<T>)
      ensures n == if level < |forward| then forward[level] else null
    {
      if level >= |forward| {
        return null;
      }
      return forward[level];
    }
  }

  class SkipList<T(0,!new)> {
    const comparator: (T, T) -> int
    var head: SkipNode<T>
    var maxLevel: int
    var length: int
    var levelCount: seq<int>
    // The nodes in order, head first, with their heights and copies of their rows.
    ghost var repr: set<SkipNode<T>>
    ghost var nodes: seq<SkipNode<T>>
    ghost var heights: seq<int>
    ghost var forwards: seq<seq<SkipNode?<T>>>
    ghost var spans: seq<seq<int>>

    // The elements, in order.
    ghost function Values(): (s: seq<T>)
      reads this`nodes
    {
      ValuesOf(nodes)
    }

    static ghost function ValuesOf(ns: seq<SkipNode<T>>): (s: seq<T>) {
      if ns == [] then [] else seq(|ns| - 1, k requires 0 <= k < |ns| - 1 => ns[k + 1].val)
    }

    static lemma {:induction false} RaisedValues(ns: seq<SkipNode<T>>, p: nat, n: SkipNode<T>)
      requires p < |ns|
      ensures ValuesOf(Raised<SkipNode<T>>(ns, p, n)) == ValuesOf(ns)[..p] + [n.val] + ValuesOf(ns)[p..]
    {
    }

    ghost function At(j: int): SkipNode?<T>
      reads this`nodes
    {
      if 0 <= j < |nodes| then nodes[j] else null
    }

    ghost predicate Framed()
      reads this`repr, this`nodes, this`heights, this`forwards, this`spans, repr
    {
      && |nodes| == |heights| == |forwards| == |spans|
      && (forall j, k :: 0 <= j < k < |nodes| ==> nodes[j] != nodes[k])
      && (forall k :: 0 <= k < |nodes| ==>
            && nodes[k] in repr && nodes[k].forward == forwards[k] && nodes[k].skips == spans[k]
            && 1 <= |forwards[k]| == |spans[k]| == heights[k] <= CAP + 1)
    }

    ghost predicate Shape()
      reads this, repr
    {
      && Framed()
      && |nodes| == length + 1 && length >= 0
      && nodes[0] == head && heights[0] == CAP + 1
    }

    ghost predicate Valid()
      reads this, repr
    {
      && TotalPreorder(comparator)
      && Shape() && Threaded(nodes, null, heights, spans, forwards) && CountsRight(levelCount, maxLevel, heights)
      && Ascending(comparator, Values())
    }

    constructor (cmp: (T, T) -> int, zero: T)
      requires TotalPreorder(cmp)
      ensures Valid() && Values() == [] && comparator == cmp
      ensures fresh(repr)
    {
      comparator := cmp;
      var first := new SkipNode(zero, CAP + 1);
      first.skips := seq(CAP + 1, _ => 1);
      head := first;
      maxLevel := 0;
      length := 0;
      levelCount := seq(CAP + 1, _ => 0);
      repr := {first};
      nodes := [first];
      heights := [CAP + 1];
      forwards := [first.forward];
      spans := [first.skips];
      new;
      hide *;
      JustHead();
    }

    lemma JustHead()
      requires TotalPreorder(comparator) && repr == {head} && nodes == [head] && heights == [CAP + 1] && length == 0
               && maxLevel == 0
      requires |head.forward| == |head.skips| == CAP + 1 && forwards == [head.forward] && spans == [head.skips]
      requires forall i :: 0 <= i <= CAP ==> head.forward[i] == null && head.skips[i] == 1
      requires levelCount == seq(CAP + 1, _ => 0)
      ensures Valid() && Values() == []
    {
      assert heights[1..] == [];
    }

    // lo elements are below v and hi are not above it.
    ghost predicate CutAt(v: T, lo: int, hi: int)
      reads this`nodes
    {
      && (forall k :: 0 < k < |nodes| ==> (comparator(nodes[k].val, v) < 0 <==> k <= lo))
      && (forall k :: 0 < k < |nodes| ==> (comparator(nodes[k].val, v) <= 0 <==> k <= hi))
    }

    // Where a value cuts the list, in positions of `nodes`.
    lemma Boundaries(v: T) returns (lo: nat, hi: nat)
      requires Valid()
      ensures lo == CountBelow(comparator, Values(), v) && lo <= hi <= lo + 1 && hi < |nodes|
      ensures Holds(comparator, Values(), v) <==> lo < hi
      ensures CutAt(v, lo, hi)
    {
      lo, hi := CutExists(comparator, Values(), v);
      forall k | 0 < k < |nodes|
        ensures comparator(nodes[k].val, v) < 0 <==> k <= lo
        ensures comparator(nodes[k].val, v) <= 0 <==> k <= hi
      {
        assert nodes[k].val == Values()[k - 1];
      }
    }

    lemma Ascends()
      requires Valid()
      ensures Ascending(comparator, Values())
    {
    }

    // Level 0 goes through every node.
    lemma NextAtZero(k: int)
      requires Valid() && 0 <= k <= |Values()|
      ensures |nodes| == |Values()| + 1 && |nodes[k].forward| > 0 && nodes[k].forward[0] == At(k + 1)
      ensures k > 0 ==> nodes[k].val == Values()[k - 1]
    {
      assert RowOk(nodes, null, heights, k, spans[k], forwards[k]);
      assert k + 1 < |nodes| ==> heights[k + 1] >= 1;
      assert LinkOk(nodes, null, heights, k, 0, k + spans[k][0], forwards[k][0]);
    }

    // The same for the node behind position k, if there is one.
    lemma StepAtZero(k: int)
      requires Valid() && 0 <= k <= |Values()|
      ensures At(k + 1) != null <==> k < |Values()|
      ensures var node := At(k + 1);
              node != null ==> node.val == Values()[k] && |node.forward| > 0 && node.forward[0] == At(k + 2)
    {
      NextAtZero(k);
      if k < |Values()| {
        NextAtZero(k + 1);
      }
    }

    // The walk along one level that both searches by value share: past all values not above val.
    method WalkUpTo(from: SkipNode<T>, i: int, val: T, c0: int, ghost lo: int, ghost hi: int)
      returns (curr: SkipNode<T>, c: int)
      requires Valid() && CutAt(val, lo, hi)
      requires 0 <= c0 <= hi < |nodes| && from == nodes[c0] && 0 <= i < heights[c0]
      ensures IsLast(heights, c, i, hi) && curr == nodes[c]
      ensures c0 <= c
    {
      curr, c := from, c0;
      assert RowOk(nodes, null, heights, c, spans[c], forwards[c]);
      while curr.forward[i] != null && comparator(curr.forward[i].val, val) <= 0
        invariant c0 <= c <= hi && curr == nodes[c] && heights[c] > i
        invariant RowOk(nodes, null, heights, c, spans[c], forwards[c])
        decreases hi - c
      {
        c := c + curr.skips[i];
        curr := curr.forward[i];
        assert RowOk(nodes, null, heights, c, spans[c], forwards[c]);
      }
    }

    method SearchByValue(val: T) returns (node: SkipNode?<T>, found: bool)
      requires Valid()
      ensures found <==> Holds(comparator, Values(), val)
      ensures found ==> node == At(CountBelow(comparator, Values(), val) + 1) && node != null
      ensures found ==> comparator(node.val, val) == 0
      ensures !found ==> node == null
    {
      hide Threaded;
      hide Ascending;
      hide CountBelow;
      hide TotalPreorder;
      ghost var lo, hi := Boundaries(val);
      assert forall j :: 0 < j < |nodes| ==> heights[j] >= 1;
      var curr := head;
      var c := 0;
      var currLevel := maxLevel;
      while currLevel >= 0
        invariant -1 <= currLevel <= maxLevel
        invariant 0 <= c <= hi && curr == nodes[c] && heights[c] > currLevel
        invariant currLevel < maxLevel ==> IsLast(heights, c, currLevel + 1, hi) && (c == hi ==> lo == hi)
      {
        curr, c := WalkUpTo(curr, currLevel, val, c, lo, hi);
        if curr != head && comparator(curr.val, val) == 0 {
          assert lo < c == hi;
          return curr, true;
        }
        currLevel := currLevel - 1;
      }
      return null, false;
    }

    method SearchByRank(rank: int) returns (node: SkipNode?<T>, found: bool)
      requires Valid()
      ensures found <==> 1 <= rank <= |Values()|
      ensures node == if found then At(rank) else null
      ensures found ==> node != null && node.val == Values()[rank - 1]
    {
      if rank < 1 || rank > length {
        return null, false;
      }
      var curr: SkipNode?<T> := head;
      var rankUntil := 0;
      var currLevel := maxLevel;
      assert 1 <= heights[rank] <= maxLevel + 1;
      while currLevel >= 0
        invariant -1 <= currLevel <= maxLevel
        invariant 0 <= rankUntil < rank && curr == nodes[rankUntil]
        invariant heights[rankUntil] > currLevel
        invariant forall j :: rankUntil < j <= rank ==> heights[j] <= currLevel + 1
      {
        while curr != null && rankUntil + curr.skips[currLevel] <= rank
          invariant 0 <= rankUntil <= rank && curr == nodes[rankUntil] && heights[rankUntil] > currLevel
          decreases rank - rankUntil
        {
          assert RowOk(nodes, null, heights, rankUntil, spans[rankUntil], forwards[rankUntil]);
          rankUntil := rankUntil + curr.skips[currLevel];
          curr := curr.forward[currLevel];
        }
        assert RowOk(nodes, null, heights, rankUntil, spans[rankUntil], forwards[rankUntil]);
        if rankUntil == rank {
          return curr, true;
        }
        currLevel := currLevel - 1;
      }
      assert false;
    }

    method GetLowerBound(val: T) returns (node: SkipNode?<T>, found: bool)
      requires Valid()
      ensures found <==> CountBelow(comparator, Values(), val) < |Values()|
      ensures node == if found then At(CountBelow(comparator, Values(), val) + 1) else null
      ensures found ==> node != null && comparator(node.val, val) >= 0
      ensures forall k :: 0 <= k < |Values()|
                ==> (comparator(Values()[k], val) < 0 <==> k < CountBelow(comparator, Values(), val))
    {
      ghost var lo, hi := Boundaries(val);
      var curr := head;
      ghost var c := 0;
      var currLevel := maxLevel;
      while currLevel >= 0
        invariant -1 <= currLevel <= maxLevel
        invariant 0 <= c <= lo && curr == nodes[c] && heights[c] > currLevel
        invariant forall j :: c < j <= lo ==> heights[j] <= currLevel + 1
      {
        while curr.forward[currLevel] != null && comparator(curr.forward[currLevel].val, val) < 0
          invariant 0 <= c <= lo && curr == nodes[c] && heights[c] > currLevel
          decreases lo - c
        {
          assert RowOk(nodes, null, heights, c, spans[c], forwards[c]);
          c := c + curr.skips[currLevel];
          curr := curr.forward[currLevel];
        }
        assert RowOk(nodes, null, heights, c, spans[c], forwards[c]);
        currLevel := currLevel - 1;
      }
      assert heights[lo] >= 1;
      assert c == lo;
      assert RowOk(nodes, null, heights, c, spans[c], forwards[c]);
      assert |Values()| == |nodes| - 1;
      assert lo + 1 < |nodes| ==> heights[lo + 1] >= 1;
      var next := curr.forward[0];
      if next != null {
        return next, true;
      }
      return null, false;
    }

    method GetRank(item: T) returns (rank: int, found: bool)
      requires Valid()
      ensures found <==> Holds(comparator, Values(), item)
      ensures rank == if found then CountBelow(comparator, Values(), item) + 1 else -1
      ensures found ==> 1 <= rank <= |Values()| && comparator(Values()[rank - 1], item) == 0
    {
      ghost var lo, hi := Boundaries(item);
      var curr := head;
      rank := 0;
      var currLevel := maxLevel;
      while currLevel >= 0
        invariant -1 <= currLevel <= maxLevel
        invariant 0 <= rank <= hi && curr == nodes[rank] && heights[rank] > currLevel
        invariant forall j :: rank < j <= hi ==> heights[j] <= currLevel + 1
        invariant lo < hi ==> rank < hi
      {
        while curr.forward[currLevel] != null && comparator(curr.forward[currLevel].val, item) <= 0
          invariant 0 <= rank <= hi && curr == nodes[rank] && heights[rank] > currLevel
          decreases hi - rank
        {
          assert RowOk(nodes, null, heights, rank, spans[rank], forwards[rank]);
          rank := rank + curr.skips[currLevel];
          curr := curr.forward[currLevel];
        }
        assert RowOk(nodes, null, heights, rank, spans[rank], forwards[rank]);
        if curr != head && comparator(curr.val, item) == 0 {
          return rank, true;
        }
        currLevel := currLevel - 1;
      }
      return -1, false;
    }

    method Len() returns (n: int)
      requires Valid()
      ensures n == |Values()|
    {
      n := length;
    }

    method Contains(val: T) returns (found: bool)
      requires Valid()
      ensures found <==> Holds(comparator, Values(), val)
    {
      var _, ok := SearchByValue(val);
      return ok;
    }

    method Clear(zero: T)
      requires Valid()
      modifies this
      ensures Valid() && Values() == [] && fresh(repr)
    {
      assert TotalPreorder(comparator);
      hide *;
      var first := new SkipNode(zero, CAP + 1);
      first.skips := seq(CAP + 1, _ => 1);
      head := first;
      maxLevel := 0;
      length := 0;
      levelCount := seq(CAP + 1, _ => 0);
      repr := {first};
      nodes := [first];
      heights := [CAP + 1];
      forwards := [first.forward];
      spans := [first.skips];
      JustHead();
    }

    method InsertAtLevel(val: T, lvl: int)
      requires Valid() && 0 <= lvl <= CAP
      modifies this, repr
      ensures Valid()
      ensures Values() == Inserted(comparator, old(Values()), val)
      ensures fresh(repr - old(repr))
    {
      var present, hierarchy, rank, skipped := FindPath(val);
      if present {
        return;
      }
      Splice(val, lvl, hierarchy, rank, skipped);
    }

    // The descent of InsertAtLevel.  It gives up as soon as it meets an equal value.
    method FindPath(val: T) returns (present: bool, hierarchy: seq<SkipNode?<T>>, rank: seq<int>, skipped: int)
      requires Valid()
      ensures present <==> Holds(comparator, Values(), val)
      ensures !present ==> skipped == CountBelow(comparator, Values(), val) && |hierarchy| == CAP + 1
      ensures !present ==> IsPath(heights, rank, skipped)
      ensures !present ==> forall j :: 0 <= j <= maxLevel ==> hierarchy[j] == nodes[rank[j]]
      ensures !present ==> forall j :: maxLevel < j <= CAP ==> rank[j] == 0
    {
      hide Threaded;
      hide Ascending;
      hide CountBelow;
      hide Holds;
      hide TotalPreorder;
      ghost var lo, hi := Boundaries(val);
      hierarchy := NoNodes();
      rank := seq(CAP + 1, _ => 0);
      var curr := head;
      skipped := 0;
      var currLevel := maxLevel;
      while currLevel >= 0
        invariant -1 <= currLevel <= maxLevel
        invariant 0 <= skipped <= hi && curr == nodes[skipped] && heights[skipped] > currLevel
        invariant forall j :: skipped < j <= hi ==> heights[j] <= currLevel + 1
        invariant |hierarchy| == |rank| == CAP + 1
        invariant forall j :: 0 <= j <= currLevel || maxLevel < j <= CAP ==> rank[j] == 0
        invariant forall j :: currLevel < j <= maxLevel ==>
                    IsLast(heights, rank[j], j, hi) && hierarchy[j] == nodes[rank[j]]
        invariant lo < hi ==> skipped < hi
      {
        curr, skipped := WalkUpTo(curr, currLevel, val, skipped, lo, hi);
        if curr != head && comparator(curr.val, val) == 0 {
          return true, hierarchy, rank, skipped;
        }
        hierarchy := hierarchy[currLevel := curr];
        rank := rank[currLevel := skipped];
        currLevel := currLevel - 1;
      }
      assert heights[hi] >= 1;
      present := false;
    }

    // The second half of InsertAtLevel: the new node goes behind position `skipped`.
    method Splice(val: T, lvl: int, hierarchy0: seq<SkipNode?<T>>, rank: seq<int>, skipped: int)
      requires Valid() && 0 <= lvl <= CAP
      requires IsPath(heights, rank, skipped) && |hierarchy0| == CAP + 1
      requires forall j :: 0 <= j <= maxLevel ==> hierarchy0[j] == nodes[rank[j]]
      requires forall j :: maxLevel < j <= CAP ==> rank[j] == 0
      requires !Holds(comparator, Values(), val) && skipped == CountBelow(comparator, Values(), val)
      modifies this, repr
      ensures Valid()
      ensures Values() == Inserted(comparator, old(Values()), val)
      ensures fresh(repr - old(repr))
    {
      InsertedAscending(comparator, Values(), val);
      var hierarchy := GrowLevels(lvl, hierarchy0, rank);
      var newNode := new SkipNode(val, lvl + 1);
      Place(newNode, lvl, hierarchy, rank, skipped);
      RaisedCounts(old(levelCount), old(maxLevel), old(heights), skipped, lvl, levelCount, maxLevel);
    }

    // A node taller than any other brings new levels into use; their path is the head.
    method GrowLevels(lvl: int, hierarchy0: seq<SkipNode?<T>>, ghost rank: seq<int>)
      returns (hierarchy: seq<SkipNode?<T>>)
      requires |nodes| > 0 && head == nodes[0] && lvl <= CAP && -1 <= maxLevel <= CAP
               && |hierarchy0| == |rank| == CAP + 1
      requires forall j :: 0 <= j <= maxLevel ==> 0 <= rank[j] < |nodes| && hierarchy0[j] == nodes[rank[j]]
      requires forall j :: maxLevel < j <= CAP ==> rank[j] == 0
      modifies this`maxLevel
      ensures maxLevel == (if lvl > old(maxLevel) then lvl else old(maxLevel)) && |hierarchy| == CAP + 1
      ensures forall j :: 0 <= j <= maxLevel ==> 0 <= rank[j] < |nodes| && hierarchy[j] == nodes[rank[j]]
    {
      hierarchy := hierarchy0;
      if lvl > maxLevel {
        for i := maxLevel + 1 to lvl + 1
          invariant |hierarchy| == CAP + 1
          invariant forall j :: 0 <= j < i ==> 0 <= rank[j] < |nodes| && hierarchy[j] == nodes[rank[j]]
        {
          hierarchy := hierarchy[i := head];
        }
        maxLevel := lvl;
      }
    }

    method Place(newNode: SkipNode<T>, lvl: int, hierarchy: seq<SkipNode?<T>>, rank: seq<int>, skipped: int)
      requires Shape() && Threaded(nodes, null, heights, spans, forwards) && |levelCount| == CAP + 1
      requires newNode !in repr && |newNode.forward| == |newNode.skips| == lvl + 1
      requires 0 <= lvl <= maxLevel <= CAP && IsPath(heights, rank, skipped) && |hierarchy| == CAP + 1
      requires forall j :: 0 <= j <= maxLevel ==> hierarchy[j] == nodes[rank[j]]
      requires forall j :: maxLevel < j <= CAP ==> rank[j] == 0
      modifies this`levelCount, this`length, this`repr, this`nodes, this`heights, this`forwards, this`spans, repr,
               newNode
      ensures Shape() && Threaded(nodes, null, heights, spans, forwards)
      ensures repr == old(repr) + {newNode}
      ensures nodes == Raised<SkipNode?<T>>(old(nodes), skipped, newNode)
      ensures heights == Raised(old(heights), skipped, lvl + 1)
      ensures Values() == old(Values())[..skipped] + [newNode.val] + old(Values())[skipped..]
      ensures |levelCount| == CAP + 1
      ensures forall j :: 0 <= j <= CAP ==> levelCount[j] == old(levelCount)[j] + if j <= lvl then 1 else 0
    {
      hide Threaded;
      Weave(newNode, lvl, hierarchy, rank, skipped);
      length := length + 1;
      Adopt(newNode, skipped);
    }

    // All the pointer work of an insertion.
    method Weave(newNode: SkipNode<T>, lvl: int, hierarchy: seq<SkipNode?<T>>, rank: seq<int>, skipped: int)
      requires Framed() && Threaded(nodes, null, heights, spans, forwards) && |levelCount| == CAP + 1
      requires |nodes| > 0 && head == nodes[0] && newNode !in repr && |newNode.forward| == |newNode.skips| == lvl + 1
      requires 0 <= lvl <= maxLevel <= CAP && IsPath(heights, rank, skipped) && |hierarchy| == CAP + 1
      requires forall j :: 0 <= j <= maxLevel ==> hierarchy[j] == nodes[rank[j]]
      requires forall j :: maxLevel < j <= CAP ==> rank[j] == 0
      modifies this`levelCount, this`forwards, this`spans, repr, newNode
      ensures Framed() && |newNode.forward| == |newNode.skips| == lvl + 1
      ensures Threaded(Raised<SkipNode?<T>>(nodes, skipped, newNode), null, Raised(heights, skipped, lvl + 1),
                       Raised(spans, skipped, newNode.skips), Raised(forwards, skipped, newNode.forward))
      ensures |levelCount| == CAP + 1
      ensures forall j :: 0 <= j <= CAP ==> levelCount[j] == old(levelCount)[j] + if j <= lvl then 1 else 0
    {
      hide Threaded;
      ghost var p := PlanInsertion(newNode, lvl, hierarchy, rank, skipped);
      LinkNew(newNode, lvl, hierarchy, rank, skipped, p);
      ghost var F1 := forwards;
      TurnOver(newNode, lvl, p);
      WidenAbove(newNode, lvl, hierarchy, p, F1, newNode.forward, newNode.skips);
      RaisedLinks(nodes, null, heights, p.S, p.F, rank, skipped, lvl, newNode, p.toS, p.toF,
                  spans, forwards, newNode.skips, newNode.forward);
    }

    lemma PlanInsertion(newNode: SkipNode<T>, lvl: int, hierarchy: seq<SkipNode?<T>>, rank: seq<int>, skipped: int)
      returns (p: Plan<SkipNode?<T>>)
      requires Framed() && |nodes| > 0 && head == nodes[0] && |levelCount| == CAP + 1
      requires newNode !in repr && |newNode.forward| == |newNode.skips| == lvl + 1
      requires 0 <= lvl <= maxLevel <= CAP && IsPath(heights, rank, skipped) && |hierarchy| == CAP + 1
      requires forall j :: 0 <= j <= maxLevel ==> hierarchy[j] == nodes[rank[j]]
      requires forall j :: maxLevel < j <= CAP ==> rank[j] == 0
      ensures p.path == rank && p.pos == skipped && p.F == forwards && p.S == spans && p.C == levelCount && p.Fits()
      ensures p.toF == seq(CAP + 1, _ => newNode) && p.toS == SpansBefore(spans, rank, lvl, skipped)
      ensures Halfway(newNode, 0, lvl, p)
      ensures p.AllReady(newNode, lvl, hierarchy, maxLevel)
    {
      assert forall j :: 0 <= j <= CAP ==> IsLast(heights, rank[j], j, skipped);
      p := Plan(nodes, heights, skipped, rank, forwards, spans, levelCount, seq(CAP + 1, _ => newNode),
                SpansBefore(spans, rank, lvl, skipped));
      RowsNone(forwards, rank, 0, p.toF);
      RowsNone(spans, rank, 0, p.toS);
    }

    lemma TurnOver(n: SkipNode<T>, lvl: int, p: Plan<SkipNode?<T>>)
      requires Halfway(n, lvl + 1, lvl, p)
      ensures n.forward == Picked(p.F, p.path, lvl + 1) && n.skips == SpansBehind(p.S, p.path, lvl + 1, p.pos)
      ensures Widened(lvl + 1, n, p, forwards, n.forward, n.skips)
    {
    }

    // The ghost side of an insertion: the woven node takes its place.
    ghost method Adopt(newNode: SkipNode<T>, p: int)
      requires Framed() && 0 <= p < |nodes| && |newNode.forward| == |newNode.skips| <= CAP + 1 && newNode !in repr
      requires |newNode.forward| > 0
      modifies this`repr, this`nodes, this`heights, this`forwards, this`spans
      ensures repr == old(repr) + {newNode}
      ensures nodes == Raised<SkipNode?<T>>(old(nodes), p, newNode)
              && heights == Raised(old(heights), p, |newNode.skips|)
      ensures spans == Raised(old(spans), p, newNode.skips) && forwards == Raised(old(forwards), p, newNode.forward)
      ensures Framed()
      ensures Values() == old(Values())[..p] + [newNode.val] + old(Values())[p..]
    {
      hide ValuesOf;
      RaisedValues(nodes, p, newNode);
      repr := repr + {newNode};
      nodes := Raised(nodes, p, newNode);
      heights := Raised(heights, p, |newNode.skips|);
      forwards := Raised(forwards, p, newNode.forward);
      spans := Raised(spans, p, newNode.skips);
    }

    // Writes one pointer and one span of the node at position r.
    method SetLink(n: SkipNode<T>, ghost r: int, i: int, to: SkipNode?<T>, span: int)
      requires Framed() && 0 <= r < |nodes| && n == nodes[r] && 0 <= i < heights[r]
      modifies n, this`forwards, this`spans
      ensures Framed()
      ensures forwards == Put(old(forwards), r, i, to)
      ensures spans == Put(old(spans), r, i, span)
    {
      n.forward := n.forward[i := to];
      n.skips := n.skips[i := span];
      forwards := Put(forwards, r, i, to);
      spans := Put(spans, r, i, span);
    }

    // Levels below i of the new node are in place: it took over the pointers of its predecessors on the
    // path, and shared their spans.
    ghost predicate Halfway(n: SkipNode<T>, i: int, lvl: int, p: Plan<SkipNode?<T>>)
      reads this`repr, this`nodes, this`heights, this`forwards, this`spans, this`levelCount, repr, n
    {
      PathDone(i, p) && 0 <= i <= lvl + 1 <= CAP + 1 && NewDone(n, i, lvl, p) && n !in repr
    }

    ghost predicate PathDone(i: int, p: Plan<SkipNode?<T>>)
      reads this`repr, this`nodes, this`heights, this`forwards, this`spans, this`levelCount, repr
    {
      && Framed() && p.Fits() && p.ns == nodes && p.h == heights
      && forwards == Rows(p.F, p.path, 0, i, p.toF) && spans == Rows(p.S, p.path, 0, i, p.toS)
      && |levelCount| == CAP + 1
      && (forall j :: 0 <= j <= CAP ==> levelCount[j] == p.C[j] + if j < i then 1 else 0)
    }

    static ghost predicate NewDone(n: SkipNode<T>, i: int, lvl: int, p: Plan<SkipNode?<T>>)
      reads n
    {
      && p.Fits() && |n.forward| == |n.skips| == lvl + 1 && 0 <= i <= lvl + 1 <= CAP + 1
      && (forall j :: 0 <= j < i ==> n.forward[j] == p.F[p.path[j]][j])
      && (forall j :: 0 <= j < i ==> n.skips[j] == p.path[j] + p.S[p.path[j]][j] - p.pos)
    }

    // One level of the new node: put it between its predecessor and successor, and split the span.
    method LinkLevel(newNode: SkipNode<T>, i: int, at: SkipNode<T>, rank: int, skipped: int,
                     ghost lvl: int, ghost hierarchy: seq<SkipNode?<T>>, ghost p: Plan<SkipNode?<T>>)
      requires Halfway(newNode, i, lvl, p) && i <= lvl <= maxLevel
      requires p.Ready(i, newNode, lvl, hierarchy, maxLevel) && at == hierarchy[i] && rank == p.path[i]
               && skipped == p.pos
      modifies this`levelCount, this`forwards, this`spans, at, newNode
      ensures Halfway(newNode, i + 1, lvl, p)
    {
      hide Rows;
      hide Row;
      assert at.forward[i] == p.F[rank][i] && at.skips[i] == p.S[rank][i] by {
        StillOld(rank, i, p);
      }
      assert at in repr;
      newNode.forward := newNode.forward[i := at.forward[i]];
      newNode.skips := newNode.skips[i := rank + at.skips[i] - skipped];
      assert NewDone(newNode, i + 1, lvl, p);
      LinkAt(i, at, newNode, skipped - rank + 1, p);
    }

    lemma StillOld(k: int, i: int, p: Plan<SkipNode?<T>>)
      requires PathDone(i, p) && 0 <= i <= CAP && 0 <= k < |nodes| && i < heights[k]
      ensures nodes[k].forward[i] == p.F[k][i] && nodes[k].skips[i] == p.S[k][i]
    {
    }

    method LinkAt(i: int, at: SkipNode<T>, to: SkipNode<T>, span: int, ghost p: Plan<SkipNode?<T>>)
      requires PathDone(i, p) && 0 <= i <= CAP
      requires at == p.ns[p.path[i]] && to == p.toF[i] && span == p.toS[i]
      modifies this`levelCount, this`forwards, this`spans, at
      ensures PathDone(i + 1, p)
    {
      hide Rows;
      hide Row;
      RowsStep(p.F, p.path, 0, i, p.toF);
      RowsStep(p.S, p.path, 0, i, p.toS);
      SetLink(at, p.path[i], i, to, span);
      levelCount := levelCount[i := levelCount[i] + 1];
    }

    method LinkNew(newNode: SkipNode<T>, lvl: int, hierarchy: seq<SkipNode?<T>>, rank: seq<int>, skipped: int,
                   ghost p: Plan<SkipNode?<T>>)
      requires Halfway(newNode, 0, lvl, p) && lvl <= maxLevel && rank == p.path && skipped == p.pos
      requires p.AllReady(newNode, lvl, hierarchy, maxLevel)
      modifies this`levelCount, this`forwards, this`spans, repr, newNode
      ensures Halfway(newNode, lvl + 1, lvl, p)
    {
      for i := 0 to lvl + 1
        invariant Halfway(newNode, i, lvl, p)
      {
        p.ReadyAt(i, newNode, lvl, hierarchy, maxLevel);
        LinkLevel(newNode, i, hierarchy[i], rank[i], skipped, lvl, hierarchy, p);
      }
    }

    // The spans of the path's nodes are final on the levels below i; pointers and the new node stay put.
    ghost predicate Widened(i: int, n: SkipNode<T>, p: Plan<SkipNode?<T>>, F: seq<seq<SkipNode?<T>>>,
                            nF: seq<SkipNode?<T>>, nS: seq<int>)
      reads this`repr, this`nodes, this`heights, this`forwards, this`spans, repr, n
    {
      && Framed() && 0 <= i <= CAP + 1 && p.Fits() && p.ns == nodes && p.h == heights
      && forwards == F && spans == Rows(p.S, p.path, 0, i, p.toS)
      && n !in repr && n.forward == nF && n.skips == nS
    }

    method WidenLevel(i: int, at: SkipNode<T>, ghost newNode: SkipNode<T>, ghost lvl: int,
                      ghost hierarchy: seq<SkipNode?<T>>, ghost p: Plan<SkipNode?<T>>,
                      ghost F: seq<seq<SkipNode?<T>>>, ghost nF: seq<SkipNode?<T>>, ghost nS: seq<int>)
      requires Widened(i, newNode, p, F, nF, nS) && lvl < i
      requires p.Ready(i, newNode, lvl, hierarchy, maxLevel)
      requires at == p.ns[p.path[i]]
      modifies this`forwards, this`spans, at
      ensures Widened(i + 1, newNode, p, F, nF, nS)
    {
      hide Rows;
      hide Row;
      RowsStep(p.S, p.path, 0, i, p.toS);
      PutSelf(forwards, p.path[i], i);
      SetLink(at, p.path[i], i, at.forward[i], at.skips[i] + 1);
    }

    // On the levels the new node does not reach, the spans that pass over it grow by one.
    method WidenAbove(ghost newNode: SkipNode<T>, lvl: int, hierarchy: seq<SkipNode?<T>>, ghost p: Plan<SkipNode?<T>>,
                      ghost F: seq<seq<SkipNode?<T>>>, ghost nF: seq<SkipNode?<T>>, ghost nS: seq<int>)
      requires Widened(lvl + 1, newNode, p, F, nF, nS) && 0 <= lvl <= maxLevel <= CAP
      requires |nodes| > 0 && head == nodes[0]
      requires p.AllReady(newNode, lvl, hierarchy, maxLevel)
      modifies repr, this`forwards, this`spans
      ensures Widened(CAP + 1, newNode, p, F, nF, nS)
    {
      hide Rows;
      hide Row;
      for i := lvl + 1 to maxLevel + 1
        invariant Widened(i, newNode, p, F, nF, nS)
      {
        p.ReadyAt(i, newNode, lvl, hierarchy, maxLevel);
        WidenLevel(i, hierarchy[i], newNode, lvl, hierarchy, p, F, nF, nS);
      }
      WidenHead(newNode, lvl, hierarchy, p, F, nF, nS);
    }

    // ... and above the top level only the head is on the path.
    method WidenHead(ghost newNode: SkipNode<T>, ghost lvl: int, ghost hierarchy: seq<SkipNode?<T>>,
                     ghost p: Plan<SkipNode?<T>>, ghost F: seq<seq<SkipNode?<T>>>,
                     ghost nF: seq<SkipNode?<T>>, ghost nS: seq<int>)
      requires Widened(maxLevel + 1, newNode, p, F, nF, nS) && 0 <= lvl <= maxLevel <= CAP
      requires |nodes| > 0 && head == nodes[0]
      requires p.AllReady(newNode, lvl, hierarchy, maxLevel)
      modifies repr, this`forwards, this`spans
      ensures Widened(CAP + 1, newNode, p, F, nF, nS)
    {
      for i := maxLevel + 1 to CAP + 1
        invariant Widened(i, newNode, p, F, nF, nS)
      {
        p.ReadyAt(i, newNode, lvl, hierarchy, maxLevel);
        WidenLevel(i, head, newNode, lvl, hierarchy, p, F, nF, nS);
      }
    }

    // Everything a removal at position p.pos starts from.
    ghost predicate Planned(p: Plan<SkipNode?<T>>)
      reads this, repr
    {
      && Shape() && 0 < p.pos < |nodes|
      && Threaded(p.ns, null, p.h, p.S, p.F) && Partway(heights[p.pos], p)
      && CountsRight(p.C, maxLevel, heights) && p.C == levelCount && IsPath(heights, p.path, p.pos - 1)
      && p.toF == PointersPast(p.F[p.pos], null) && p.toS == SpansWithout(p.S, p.path, p.pos)
      && p.AllFit()
    }

    lemma {:induction false} PlanRemoval(t: int) returns (p: Plan<SkipNode?<T>>)
      requires Valid() && 0 < t < |nodes|
      ensures Planned(p) && p.pos == t
    {
      hide Threaded;
      hide Ascending;
      hide TotalPreorder;
      var path := PathExists(heights, t - 1);
      assert forall j :: 0 <= j <= CAP ==> IsLast(heights, path[j], j, t - 1);
      var toF, toS := PointersPast(forwards[t], null), SpansWithout(spans, path, t);
      p := Plan(nodes, heights, t, path, forwards, spans, levelCount, toF, toS);
      assert p.AllFit() by {
        hide CountsRight;
      }
      RowsNone(forwards, path, heights[t], p.toF);
      RowsNone(spans, path, heights[t], p.toS);
    }

    // Levels a.. of the node to delete are unlinked: its predecessors on the path took over its
    // pointers and added up the spans.
    ghost predicate Partway(a: int, p: Plan<SkipNode?<T>>)
      reads this`repr, this`nodes, this`heights, this`forwards, this`spans, this`levelCount, repr
    {
      && Framed() && 0 < p.pos < |nodes| && 0 <= a <= heights[p.pos] && p.Fits() && p.ns == nodes && p.h == heights
      && spans == Rows(p.S, p.path, a, heights[p.pos], p.toS)
      && forwards == Rows(p.F, p.path, a, heights[p.pos], p.toF)[p.pos := forwards[p.pos]]
      && (forall j :: 0 <= j < a ==> forwards[p.pos][j] == p.F[p.pos][j])
      && |levelCount| == CAP + 1
      && (forall j :: 0 <= j <= CAP ==> levelCount[j] == p.C[j] - if a <= j < heights[p.pos] then 1 else 0)
    }

    // The pointers and spans of one level of the removal.
    method UnlinkRow(i: int, at: SkipNode<T>, victim: SkipNode<T>, ghost p: Plan<SkipNode?<T>>)
      requires Partway(i + 1, p) && p.RowsFit(i)
      requires at == nodes[p.path[i]] && victim == nodes[p.pos]
      modifies this`forwards, this`spans, at, victim
      ensures Framed() && spans == Rows(p.S, p.path, i, heights[p.pos], p.toS)
      ensures forwards == Rows(p.F, p.path, i, heights[p.pos], p.toF)[p.pos := forwards[p.pos]]
      ensures forall j :: 0 <= j < i ==> forwards[p.pos][j] == p.F[p.pos][j]
    {
      hide Rows;
      hide Row;
      RowsStepDown(p.F, p.path, i, heights[p.pos], p.toF);
      RowsStepDown(p.S, p.path, i, heights[p.pos], p.toS);
      SetLink(at, p.path[i], i, victim.forward[i], at.skips[i] + victim.skips[i] - 1);
      PutSelf(spans, p.pos, i);
      SetLink(victim, p.pos, i, null, victim.skips[i]);
    }

    // One level of the removal.
    method UnlinkLevel(i: int, at: SkipNode<T>, victim: SkipNode<T>, ghost p: Plan<SkipNode?<T>>)
      requires Partway(i + 1, p) && p.RowsFit(i) && -1 <= maxLevel
      requires at == nodes[p.path[i]] && victim == nodes[p.pos]
      modifies this`levelCount, this`maxLevel, this`forwards, this`spans, at, victim
      ensures Partway(i, p)
      ensures maxLevel == if levelCount[i] == 0 then old(maxLevel) - 1 else old(maxLevel)
    {
      hide Rows;
      UnlinkRow(i, at, victim, p);
      levelCount := levelCount[i := levelCount[i] - 1];
      if levelCount[i] == 0 {
        maxLevel := maxLevel - 1;
      }
    }

    // On level i, the nodes before the one to delete still hold their old pointers.
    ghost predicate Intact(i: int, p: Plan<SkipNode?<T>>)
      reads this`nodes, this`heights, nodes
    {
      && 0 <= i <= CAP && p.pos <= |nodes| == |heights| == |p.S|
      && (forall k {:trigger IntactAt(k, i, p)} :: 0 <= k < p.pos && i < heights[k] ==> IntactAt(k, i, p))
    }

    ghost predicate IntactAt(k: int, i: int, p: Plan<SkipNode?<T>>)
      requires 0 <= k < |nodes| == |heights| == |p.S| && 0 <= i
      reads this`nodes, this`heights, nodes
    {
      && i < |nodes[k].forward| && i < |p.S[k]|
      && LinkOk(nodes, null, heights, k, i, k + p.S[k][i], nodes[k].forward[i])
    }

    lemma StillIntact(i: int, a: int, p: Plan<SkipNode?<T>>)
      requires Partway(a, p) && Threaded(p.ns, null, p.h, p.S, p.F)
      requires 0 <= i <= CAP && (i < a || i >= heights[p.pos])
      ensures Intact(i, p)
    {
      forall k | 0 <= k < p.pos && i < heights[k] ensures IntactAt(k, i, p) {
        assert RowOk(nodes, null, heights, k, p.S[k], p.F[k]);
      }
    }

    // The walk along one level of Delete: as far as the values are below val.
    method WalkBelow(from: SkipNode<T>, i: int, val: T, ghost c0: int, ghost p: Plan<SkipNode?<T>>)
      returns (curr: SkipNode<T>, ghost c: int, ghost r: int)
      requires Intact(i, p)
      requires 0 <= c0 < p.pos && from == nodes[c0] && i < heights[c0]
      requires CutAt(val, p.pos - 1, p.pos)
      ensures c0 <= c < p.pos <= r && curr == nodes[c] && i < heights[c] && i < |curr.forward|
      ensures LinkOk(nodes, null, heights, c, i, r, curr.forward[i])
    {
      curr, c := from, c0;
      assert IntactAt(c, i, p);
      r := c + p.S[c][i];
      while curr.forward[i] != null && comparator(curr.forward[i].val, val) < 0
        invariant c0 <= c < p.pos && curr == nodes[c] && i < heights[c]
        invariant i < |curr.forward| && LinkOk(nodes, null, heights, c, i, r, curr.forward[i])
        decreases p.pos - c
      {
        c := r;
        curr := curr.forward[i];
        assert IntactAt(c, i, p);
        r := c + p.S[c][i];
      }
    }

    // The lowest level unlinked so far, once level i is next.
    static ghost function Below(i: int, p: Plan<SkipNode?<T>>): int
      requires 0 <= p.pos < |p.h|
    {
      if i + 1 < p.h[p.pos] then i + 1 else p.h[p.pos]
    }

    // Delete has dealt with the levels above i; the search stands at position c.
    ghost predicate Unlinking(i: int, c: int, curr: SkipNode<T>, victim: SkipNode?<T>, hierarchy: seq<SkipNode?<T>>,
                              top: int, p: Plan<SkipNode?<T>>)
      reads this`repr, this`nodes, this`heights, this`forwards, this`spans, this`levelCount, this`maxLevel, repr
    {
      && 0 < p.pos < |nodes| == |heights| && p.h == heights && -1 <= i <= top <= CAP && |hierarchy| == CAP + 1
      && Partway(Below(i, p), p)
      && TopSoFar(maxLevel, i + 1, top, TallerRow(Dropped(heights, p.pos)))
      && 0 <= c < p.pos && curr == nodes[c] && heights[c] > i
      && (i + 1 < heights[p.pos] ==> victim == nodes[p.pos])
      && p.HeldAll(hierarchy, if heights[p.pos] > i then heights[p.pos] else i + 1, top)
    }

    // What the search for the removal of val relies on throughout.
    ghost predicate Searching(val: T, top: int, p: Plan<SkipNode?<T>>)
      reads this`nodes
    {
      && Threaded(p.ns, null, p.h, p.S, p.F) && p.AllFit() && |p.h| > 0 && p.C == TallerRow(p.h)
      && -1 <= top <= CAP && (top > 0 ==> p.C[top] > 0)
      && CutAt(val, p.pos - 1, p.pos)
    }

    method UnlinkStep(i: int, ghost c0: int, from: SkipNode<T>, ghost victim: SkipNode?<T>,
                      hierarchy: seq<SkipNode?<T>>, val: T, ghost top: int, ghost p: Plan<SkipNode?<T>>)
      returns (ghost c: int, curr: SkipNode<T>, nodeToDelete: SkipNode?<T>, hierarchy': seq<SkipNode?<T>>)
      requires Unlinking(i, c0, from, victim, hierarchy, top, p) && 0 <= i && Searching(val, top, p)
      modifies this`levelCount, this`maxLevel, this`forwards, this`spans, repr
      ensures Searching(val, top, p)
      ensures Unlinking(i - 1, c, curr, nodeToDelete, hierarchy', top, p)
    {
      hide Rows;
      hide Row;
      hide Threaded;
      ghost var r;
      p.FitAt(i);
      StillIntact(i, Below(i, p), p);
      curr, c, r := WalkBelow(from, i, val, c0, p);
      nodeToDelete, hierarchy' := UnlinkAt(i, c, r, curr, c0, from, victim, hierarchy, val, top, p);
    }

    method UnlinkAt(i: int, ghost c: int, ghost r: int, curr: SkipNode<T>, ghost c0: int, ghost from: SkipNode<T>,
                    ghost victim: SkipNode?<T>, hierarchy: seq<SkipNode?<T>>, val: T, ghost top: int,
                    ghost p: Plan<SkipNode?<T>>)
      returns (nodeToDelete: SkipNode?<T>, hierarchy': seq<SkipNode?<T>>)
      requires Unlinking(i, c0, from, victim, hierarchy, top, p) && 0 <= i && p.RowsFit(i)
      requires p.C == TallerRow(p.h) && (top > 0 ==> p.C[top] > 0)
      requires 0 <= c < p.pos <= r && curr == nodes[c] && i < heights[c] && i < |curr.forward|
      requires LinkOk(nodes, null, heights, c, i, r, curr.forward[i])
      requires CutAt(val, p.pos - 1, p.pos)
      modifies this`levelCount, this`maxLevel, this`forwards, this`spans, repr
      ensures Unlinking(i - 1, c, curr, nodeToDelete, hierarchy', top, p)
    {
      hierarchy' := hierarchy;
      LastUnique(heights, c, i, r, p.pos - 1, p.path[i]);
      nodeToDelete := curr.forward[i];
      assert r == p.pos <==> i < heights[p.pos];
      if nodeToDelete != null && comparator(nodeToDelete.val, val) == 0 {
        UnlinkHere(i, c, curr, nodeToDelete, c0, from, victim, hierarchy, top, p);
      } else {
        hierarchy' := hierarchy[i := curr];
        PassBy(i, c, curr, nodeToDelete, c0, from, victim, hierarchy, top, p);
      }
    }

    // Where the top level will stand once the node is off level i, too.
    lemma TopWithout(i: int, c0: int, from: SkipNode<T>, victim: SkipNode?<T>, hierarchy: seq<SkipNode?<T>>,
                     top: int, p: Plan<SkipNode?<T>>)
      requires Unlinking(i, c0, from, victim, hierarchy, top, p) && p.RowsFit(i)
      requires i < heights[p.pos] && p.C == TallerRow(p.h)
      ensures p.C[i] == 1 ==> TopSoFar(maxLevel - 1, i, top, TallerRow(Dropped(heights, p.pos)))
      ensures p.C[i] != 1 ==> TopSoFar(maxLevel, i, top, TallerRow(Dropped(heights, p.pos)))
    {
      DroppedTaller(heights, p.pos, i);
      TopStep(maxLevel, i + 1, top, Dropped(heights, p.pos));
    }

    method UnlinkHere(i: int, ghost c: int, curr: SkipNode<T>, nodeToDelete: SkipNode<T>, ghost c0: int,
                      ghost from: SkipNode<T>, ghost victim: SkipNode?<T>, ghost hierarchy: seq<SkipNode?<T>>,
                      ghost top: int, ghost p: Plan<SkipNode?<T>>)
      requires Unlinking(i, c0, from, victim, hierarchy, top, p) && p.RowsFit(i)
      requires i < heights[p.pos] && p.C == TallerRow(p.h)
      requires c == p.path[i] && curr == nodes[c] && nodeToDelete == nodes[p.pos]
      modifies this`levelCount, this`maxLevel, this`forwards, this`spans, curr, nodeToDelete
      ensures Unlinking(i - 1, c, curr, nodeToDelete, hierarchy, top, p)
    {
      hide TopSoFar;
      hide Rows;
      hide Row;
      hide TallerRow;
      hide Dropped;
      TopWithout(i, c0, from, victim, hierarchy, top, p);
      UnlinkLevel(i, curr, nodeToDelete, p);
    }

    lemma PassBy(i: int, c: int, curr: SkipNode<T>, nodeToDelete: SkipNode?<T>, c0: int, from: SkipNode<T>,
                 victim: SkipNode?<T>, hierarchy: seq<SkipNode?<T>>, top: int, p: Plan<SkipNode?<T>>)
      requires Unlinking(i, c0, from, victim, hierarchy, top, p) && p.RowsFit(i)
      requires heights[p.pos] <= i && p.C == TallerRow(p.h) && (top > 0 ==> p.C[top] > 0)
      requires c == p.path[i] && curr == nodes[c]
      ensures Unlinking(i - 1, c, curr, nodeToDelete, hierarchy[i := curr], top, p)
    {
      DroppedTaller(heights, p.pos, i);
      TallerMono(heights[1..], i, top);
      TopStep(maxLevel, i + 1, top, Dropped(heights, p.pos));
      var held := hierarchy[i := curr];
      forall j | heights[p.pos] <= j && i - 1 < j <= top ensures p.Held(j, held) {
        assert j == i || p.Held(j, hierarchy);
      }
    }

    // Deletes a value that is present; both callers in the sorted set look it up first.
    method Delete(val: T)
      requires Valid() && Holds(comparator, Values(), val)
      modifies this, repr
      ensures Valid()
      ensures CountBelow(comparator, old(Values()), val) < |old(Values())|
      ensures Values() == Deleted(comparator, old(Values()), val)
      ensures repr == old(repr)
    {
      ghost var lo, hi := Boundaries(val);
      DeletedAscending(comparator, Values(), val);
      ghost var p := PlanRemoval(lo + 1);
      Remove(val, p);
    }

    // Delete once it is known where: everything but the order of the values.
    method Remove(val: T, ghost p: Plan<SkipNode?<T>>)
      requires Planned(p) && CutAt(val, p.pos - 1, p.pos)
      modifies this`levelCount, this`maxLevel, this`length, this`nodes, this`heights, this`forwards, this`spans, repr
      ensures Shape() && Threaded(nodes, null, heights, spans, forwards) && CountsRight(levelCount, maxLevel, heights)
      ensures nodes == Dropped<SkipNode?<T>>(old(nodes), p.pos)
      ensures Values() == old(Values())[..p.pos - 1] + old(Values())[p.pos..]
    {
      StartUnlinking(val, p);
      var hierarchy, nodeToDelete := Unlink(val, p);
      DroppedCounts(p.C, heights, p.pos, old(maxLevel), levelCount, maxLevel);
      TakeOut(nodeToDelete, hierarchy, old(maxLevel), p);
    }

    // The end of Delete: spans above the removed node, and the ghost bookkeeping.
    method TakeOut(nodeToDelete: SkipNode<T>, hierarchy: seq<SkipNode?<T>>, ghost was: int, ghost p: Plan<SkipNode?<T>>)
      requires Shape() && Threaded(p.ns, null, p.h, p.S, p.F) && Partway(0, p)
      requires nodeToDelete == nodes[p.pos] && |hierarchy| == CAP + 1 && maxLevel <= was <= CAP
      requires CountsRight(levelCount, maxLevel, Dropped(heights, p.pos))
      requires p.HeldAll(hierarchy, heights[p.pos], was)
      requires p.AllFit()
      requires IsPath(heights, p.path, p.pos - 1)
      requires p.toF == PointersPast(p.F[p.pos], null) && p.toS == SpansWithout(p.S, p.path, p.pos)
      modifies this`length, this`nodes, this`heights, this`forwards, this`spans, repr
      ensures Shape() && Threaded(nodes, null, heights, spans, forwards)
      ensures nodes == Dropped<SkipNode?<T>>(old(nodes), p.pos) && heights == Dropped(old(heights), p.pos)
      ensures Values() == old(Values())[..p.pos - 1] + old(Values())[p.pos..]
    {
      hide Threaded;
      NarrowAbove(|nodeToDelete.skips|, hierarchy, was, p);
      DroppedLinks(nodes, null, heights, p.S, p.F, p.path, p.pos, p.toS, p.toF, spans, forwards);
      length := length - 1;
      Expel(p.pos);
    }

    // A zeroed hierarchy array.
    static function NoNodes(): (r: seq<SkipNode?<T>>) {
      seq(CAP + 1, _ => null)
    }

    // The search of Delete, unlinking as it goes down.
    method Unlink(val: T, ghost p: Plan<SkipNode?<T>>)
      returns (hierarchy: seq<SkipNode?<T>>, nodeToDelete: SkipNode?<T>)
      requires Searching(val, maxLevel, p) && -1 <= maxLevel
      requires Unlinking(maxLevel, 0, head, null, NoNodes(), maxLevel, p)
      modifies this`levelCount, this`maxLevel, this`forwards, this`spans, repr
      ensures Partway(0, p) && TopSoFar(maxLevel, 0, old(maxLevel), TallerRow(Dropped(p.h, p.pos)))
      ensures nodeToDelete == p.ns[p.pos] && |hierarchy| == CAP + 1
      ensures p.HeldAll(hierarchy, p.h[p.pos], old(maxLevel))
    {
      hide Searching;
      hide Unlinking;
      hierarchy := NoNodes();
      nodeToDelete := null;
      var curr := head;
      ghost var c, top := 0, maxLevel;
      var currLevel := maxLevel;
      while currLevel >= 0
        invariant -1 <= currLevel && Searching(val, top, p)
        invariant Unlinking(currLevel, c, curr, nodeToDelete, hierarchy, top, p)
      {
        c, curr, nodeToDelete, hierarchy := UnlinkStep(currLevel, c, curr, nodeToDelete, hierarchy, val, top, p);
        currLevel := currLevel - 1;
      }
      assert currLevel == -1;
      EndUnlinking(c, curr, nodeToDelete, hierarchy, top, p);
    }

    lemma StartUnlinking(val: T, p: Plan<SkipNode?<T>>)
      requires Planned(p) && CutAt(val, p.pos - 1, p.pos)
      ensures Unlinking(maxLevel, 0, head, null, NoNodes(), maxLevel, p)
      ensures Searching(val, maxLevel, p)
    {
      TopStart(Dropped(heights, p.pos), maxLevel);
    }

    lemma EndUnlinking(c: int, curr: SkipNode<T>, victim: SkipNode?<T>, hierarchy: seq<SkipNode?<T>>, top: int,
                       p: Plan<SkipNode?<T>>)
      requires Unlinking(-1, c, curr, victim, hierarchy, top, p)
      ensures Partway(0, p) && TopSoFar(maxLevel, 0, top, TallerRow(Dropped(p.h, p.pos)))
      ensures victim == p.ns[p.pos] && |hierarchy| == CAP + 1 && p.HeldAll(hierarchy, p.h[p.pos], top)
    {
    }

    // Above the removed node: the spans below level i that passed over it have lost one.
    ghost predicate Narrowed(i: int, p: Plan<SkipNode?<T>>)
      reads this`repr, this`nodes, this`heights, this`forwards, this`spans, repr
    {
      && Framed() && 0 < p.pos < |nodes| && 0 <= i <= CAP + 1 && p.Fits() && p.ns == nodes && p.h == heights
      && spans == Rows(p.S, p.path, 0, i, p.toS)
      && forwards == Rows(p.F, p.path, 0, heights[p.pos], p.toF)[p.pos := forwards[p.pos]]
    }

    method NarrowLevel(i: int, at: SkipNode<T>, ghost p: Plan<SkipNode?<T>>)
      requires Narrowed(i, p) && i <= CAP && p.RowsFit(i) && at == nodes[p.path[i]] && heights[p.pos] <= i
      requires |p.S[p.pos]| <= i
      modifies this`forwards, this`spans, at
      ensures Narrowed(i + 1, p)
    {
      hide Rows;
      hide Row;
      RowsStep(p.S, p.path, 0, i, p.toS);
      PutSelf(forwards, p.path[i], i);
      SetLink(at, p.path[i], i, at.forward[i], at.skips[i] - 1);
    }

    // The spans of the path's nodes above the removed node, up to the top level and beyond it at the head.
    method NarrowAbove(height: int, hierarchy: seq<SkipNode?<T>>, ghost was: int, ghost p: Plan<SkipNode?<T>>)
      requires Narrowed(height, p) && height == heights[p.pos] && |p.S[p.pos]| == height && |hierarchy| == CAP + 1
      requires |nodes| > 0 && head == nodes[0] && maxLevel <= was <= CAP
      requires CountsRight(levelCount, maxLevel, Dropped(heights, p.pos))
      requires p.HeldAll(hierarchy, height, was)
      requires p.AllFit()
      modifies repr, this`forwards, this`spans
      ensures Narrowed(CAP + 1, p)
    {
      hide Rows;
      hide Row;
      hide CountsRight;
      hide Dropped;
      var currLevel := height;
      while currLevel <= maxLevel
        invariant height <= currLevel && Narrowed(currLevel, p)
      {
        p.FitAt(currLevel);
        p.HeldAt(currLevel, hierarchy, height, was);
        NarrowLevel(currLevel, hierarchy[currLevel], p);
        currLevel := currLevel + 1;
      }
      NarrowHead(currLevel, p);
    }

    method NarrowHead(from: int, ghost p: Plan<SkipNode?<T>>)
      requires Narrowed(from, p) && maxLevel < from && |p.S[p.pos]| == heights[p.pos] <= from
      requires |nodes| > 0 && head == nodes[0]
      requires CountsRight(levelCount, maxLevel, Dropped(heights, p.pos))
      requires p.AllFit()
      modifies repr, this`forwards, this`spans
      ensures Narrowed(CAP + 1, p)
    {
      for currLevel := from to CAP + 1
        invariant Narrowed(currLevel, p)
      {
        p.FitAt(currLevel);
        PathAtTop(levelCount, maxLevel, heights, p.pos, currLevel, p.path[currLevel]);
        NarrowLevel(currLevel, head, p);
      }
    }

    // The ghost side of a removal.
    ghost method Expel(t: int)
      requires Framed() && 0 < t < |nodes|
      modifies this`nodes, this`heights, this`forwards, this`spans
      ensures nodes == Dropped<SkipNode?<T>>(old(nodes), t) && heights == Dropped(old(heights), t)
      ensures spans == Dropped(old(spans), t) && forwards == Dropped(old(forwards), t)
      ensures Framed()
      ensures Values() == old(Values())[..t - 1] + old(Values())[t..]
    {
      nodes := Dropped(nodes, t);
      heights := Dropped(heights, t);
      forwards := Dropped(forwards, t);
      spans := Dropped(spans, t);
    }
  }
}
