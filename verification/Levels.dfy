/** The shape of a skip list seen from above: only how tall the node at each position is.
    Position 0 is the head; positions 1, 2, ... are the elements in order.  A node takes part in
    level i when its height is greater than i. */
module Levels {

  const CAP: nat := 16  // MaxLevelCap

  // r is the position that follows k on level i; |h| stands for the end of the list.
  ghost predicate IsNext(h: seq<int>, k: int, i: int, r: int) {
    && 0 <= k < r <= |h|
    && (forall j :: k < j < r ==> h[j] <= i)
    && (r < |h| ==> h[r] > i)
  }

  // path[i] is the last position not beyond p that takes part in level i.
  ghost predicate IsPath(h: seq<int>, path: seq<int>, p: int) {
    && |path| == CAP + 1 && 0 <= p < |h|
    && forall i :: 0 <= i <= CAP ==> IsLast(h, path[i], i, p)
  }

  ghost predicate IsLast(h: seq<int>, k: int, i: int, p: int) {
    && 0 <= p < |h| && 0 <= k <= p
    && h[k] > i
    && (forall j :: k < j <= p ==> h[j] <= i)
  }

  lemma LastUnique(h: seq<int>, k: int, i: int, r: int, p: int, q: int)
    requires IsNext(h, k, i, r) && k <= p < r && IsLast(h, q, i, p) && h[k] > i
    ensures k == q
  {
  }

  // A link passes over p exactly when it starts from the path.
  lemma OnPath(h: seq<int>, path: seq<int>, p: int, k: int, i: int, r: int)
    requires IsPath(h, path, p) && 0 <= i <= CAP && IsNext(h, k, i, r) && h[k] > i
    ensures k == path[i] <==> k <= p < r
  {
    assert IsLast(h, path[i], i, p);
  }

  // x goes right behind position p.
  ghost function Raised<X>(s: seq<X>, p: int, x: X): (r: seq<X>)
    requires 0 <= p < |s|
    ensures |r| == |s| + 1
    ensures forall k :: 0 <= k < |r| ==> r[k] == if k <= p then s[k] else if k == p + 1 then x else s[k - 1]
  {
    seq(|s| + 1, k requires 0 <= k < |s| + 1 => if k <= p then s[k] else if k == p + 1 then x else s[k - 1])
  }

  ghost function Dropped<X>(s: seq<X>, t: int): (r: seq<X>)
    requires 0 <= t < |s|
    ensures |r| == |s| - 1
    ensures forall k :: 0 <= k < |r| ==> r[k] == if k < t then s[k] else s[k + 1]
  {
    seq(|s| - 1, k requires 0 <= k < |s| - 1 => if k < t then s[k] else s[k + 1])
  }

  ghost function Shifted(p: int, r: int): int { if r <= p then r else r + 1 }

  ghost function Closed(t: int, r: int): int { if r < t then r else r - 1 }

  // Where level i leads after a node of height x has been put behind position p.
  lemma RaisedNext(h: seq<int>, p: nat, x: nat, k: int, i: int, r: int)
    requires p < |h| && IsNext(h, k, i, r) && h[k] > i
    ensures r <= p || k > p || x <= i ==> IsNext(Raised(h, p, x), Shifted(p, k), i, Shifted(p, r))
    ensures k <= p < r && x > i ==> IsNext(Raised(h, p, x), k, i, p + 1) && IsNext(Raised(h, p, x), p + 1, i, r + 1)
    ensures k <= p < r <==> IsLast(h, k, i, p)
  {
    var g := Raised(h, p, x);
  }

  // Where level i leads after the node at position t is gone.
  lemma DroppedNext(h: seq<int>, t: int, k: int, i: int, r: int)
    requires 0 < t < |h| && IsNext(h, k, i, r) && h[k] > i && k != t
    ensures r < t ==> IsNext(Dropped(h, t), k, i, r)
    ensures k < t < r ==> h[t] <= i && IsNext(Dropped(h, t), k, i, r - 1)
    ensures k > t ==> IsNext(Dropped(h, t), k - 1, i, r - 1)
    ensures k < t <= r <==> IsLast(h, k, i, t - 1)
    ensures r == t ==> h[t] > i && forall q :: IsNext(h, t, i, q) ==> IsNext(Dropped(h, t), k, i, q - 1)
  {
    var g := Dropped(h, t);
    assert k < t < r ==> h[t] <= i;
    if r == t {
      forall q | IsNext(h, t, i, q) ensures IsNext(g, k, i, q - 1) {
      }
    }
  }

  // One node's row of per-level values after the levels a..b have been rewritten: the node at
  // position k gets new[j] on each of those levels where it is the path's node.
  ghost function Row<T>(was: seq<T>, k: int, path: seq<int>, a: int, b: int, new_: seq<T>): (row: seq<T>)
    requires |path| == |new_| == CAP + 1 && |was| <= CAP + 1
    ensures |row| == |was|
    ensures forall j :: 0 <= j < |was| ==> row[j] == if a <= j < b && path[j] == k then new_[j] else was[j]
  {
    seq(|was|, j requires 0 <= j < |was| => if a <= j < b && path[j] == k then new_[j] else was[j])
  }

  ghost function Rows<T>(was: seq<seq<T>>, path: seq<int>, a: int, b: int, new_: seq<T>): (rows: seq<seq<T>>)
    requires |path| == |new_| == CAP + 1 && forall k :: 0 <= k < |was| ==> |was[k]| <= CAP + 1
    ensures |rows| == |was|
    ensures forall k :: 0 <= k < |was| ==> rows[k] == Row(was[k], k, path, a, b, new_)
  {
    seq(|was|, k requires 0 <= k < |was| => Row(was[k], k, path, a, b, new_))
  }

  ghost function Put<T>(rows: seq<seq<T>>, k: int, j: int, x: T): seq<seq<T>>
    requires 0 <= k < |rows| && 0 <= j < |rows[k]|
  {
    rows[k := rows[k][j := x]]
  }

  // The path stays inside the rows, level by level.
  ghost predicate Reaches<T>(rows: seq<seq<T>>, path: seq<int>, n: int) {
    && |path| == CAP + 1 && 0 <= n <= CAP + 1
    && forall j :: 0 <= j < n ==> 0 <= path[j] < |rows| && j < |rows[path[j]]|
  }

  ghost function Picked<T>(rows: seq<seq<T>>, path: seq<int>, n: int): (row: seq<T>)
    requires Reaches(rows, path, n)
  {
    seq(n, j requires 0 <= j < n => rows[path[j]][j])
  }

  // The new node's own spans, and what they leave to the nodes on the path.
  ghost function SpansBehind(S: seq<seq<int>>, path: seq<int>, n: int, p: int): (row: seq<int>)
    requires Reaches(S, path, n)
  {
    seq(n, j requires 0 <= j < n => path[j] + S[path[j]][j] - p)
  }

  ghost function SpansBefore(S: seq<seq<int>>, path: seq<int>, lvl: int, p: int): (row: seq<int>)
    requires Reaches(S, path, CAP + 1)
  {
    seq(CAP + 1, j requires 0 <= j <= CAP => if j <= lvl then p - path[j] + 1 else S[path[j]][j] + 1)
  }

  lemma PutSelf<T>(rows: seq<seq<T>>, k: int, j: int)
    requires 0 <= k < |rows| && 0 <= j < |rows[k]|
    ensures Put(rows, k, j, rows[k][j]) == rows
  {
    assert rows[k][j := rows[k][j]] == rows[k];
  }

  lemma RowsNone<T>(was: seq<seq<T>>, path: seq<int>, a: int, new_: seq<T>)
    requires |path| == |new_| == CAP + 1 && forall k :: 0 <= k < |was| ==> |was[k]| <= CAP + 1
    ensures Rows(was, path, a, a, new_) == was
  {
    forall k | 0 <= k < |was| ensures Row(was[k], k, path, a, a, new_) == was[k] {
    }
  }

  lemma RowsStep<T>(was: seq<seq<T>>, path: seq<int>, a: int, b: int, new_: seq<T>)
    requires |path| == |new_| == CAP + 1 && forall k :: 0 <= k < |was| ==> |was[k]| <= CAP + 1
    requires 0 <= a <= b <= CAP && 0 <= path[b] < |was| && b < |was[path[b]]|
    ensures Rows(was, path, a, b + 1, new_) == Put(Rows(was, path, a, b, new_), path[b], b, new_[b])
  {
    var p := Put(Rows(was, path, a, b, new_), path[b], b, new_[b]);
    forall k | 0 <= k < |was| ensures Row(was[k], k, path, a, b + 1, new_) == p[k] {
    }
  }

  lemma RowsStepDown<T>(was: seq<seq<T>>, path: seq<int>, a: int, b: int, new_: seq<T>)
    requires |path| == |new_| == CAP + 1 && forall k :: 0 <= k < |was| ==> |was[k]| <= CAP + 1
    requires 0 <= a < b <= CAP + 1 && 0 <= path[a] < |was| && a < |was[path[a]]|
    ensures Rows(was, path, a, b, new_) == Put(Rows(was, path, a + 1, b, new_), path[a], a, new_[a])
  {
    var p := Put(Rows(was, path, a + 1, b, new_), path[a], a, new_[a]);
    forall k | 0 <= k < |was| ensures Row(was[k], k, path, a, b, new_) == p[k] {
    }
  }

  // The head takes part in every level, so there is a path to anywhere.
  lemma {:induction false} PathExists(h: seq<int>, p: int) returns (path: seq<int>)
    requires 0 <= p < |h| && h[0] > CAP
    ensures IsPath(h, path, p)
  {
    path := [];
    while |path| <= CAP
      invariant |path| <= CAP + 1
      invariant forall i :: 0 <= i < |path| ==> IsLast(h, path[i], i, p)
    {
      var k := p;
      while h[k] <= |path|
        invariant 0 <= k <= p
        invariant forall j :: k < j <= p ==> h[j] <= |path|
        decreases k
      {
        k := k - 1;
      }
      path := path + [k];
    }
  }

  // The spans of the path's nodes once the node at position t is gone.
  ghost function SpansWithout(S: seq<seq<int>>, path: seq<int>, t: int): (row: seq<int>)
    requires Reaches(S, path, CAP + 1) && 0 <= t < |S|
  {
    seq(CAP + 1, j requires 0 <= j <= CAP => S[path[j]][j] + (if j < |S[t]| then S[t][j] else 0) - 1)
  }

  // What the path's nodes point to once the node at position t is gone.
  ghost function PointersPast<N>(f: seq<N>, nil: N): (row: seq<N>)
    requires |f| <= CAP + 1
  {
    seq(CAP + 1, j requires 0 <= j <= CAP => if j < |f| then f[j] else nil)
  }

  // How many of the elements take part in level i.
  ghost function Taller(h: seq<int>, i: int): (n: nat)
    ensures n <= |h|
  {
    if h == [] then 0 else (if h[0] > i then 1 else 0) + Taller(h[1..], i)
  }

  lemma {:induction false} TallerConcat(a: seq<int>, b: seq<int>, i: int)
    ensures Taller(a + b, i) == Taller(a, i) + Taller(b, i)
  {
    if a == [] {
      assert a + b == b;
    } else {
      assert (a + b)[1..] == a[1..] + b;
      TallerConcat(a[1..], b, i);
    }
  }

  lemma {:induction false} TallerSome(h: seq<int>, i: int)
    ensures Taller(h, i) > 0 <==> exists k :: 0 <= k < |h| && h[k] > i
  {
    if h != [] {
      TallerSome(h[1..], i);
      if k :| 0 <= k < |h| && h[k] > i {
        if k > 0 { assert h[1..][k - 1] > i; }
      }
      if k :| 0 <= k < |h[1..]| && h[1..][k] > i {
        assert h[k + 1] > i;
      }
    }
  }

  lemma RaisedTaller(h: seq<int>, p: int, x: int, i: int)
    requires 0 <= p < |h|
    ensures Taller(Raised(h, p, x)[1..], i) == Taller(h[1..], i) + (if x > i then 1 else 0)
  {
    var a, b := h[1..p + 1], h[p + 1..];
    assert Raised(h, p, x)[1..] == a + ([x] + b);
    assert h[1..] == a + b;
    assert ([x] + b)[1..] == b;
    TallerConcat(a, [x] + b, i);
    TallerConcat(a, b, i);
  }

  ghost function TallerRow(h: seq<int>): (n: seq<int>)
    requires |h| > 0
  {
    seq(CAP + 1, j requires 0 <= j <= CAP => Taller(h[1..], j))
  }

  // The counts are right and top is the highest level in use; it stays 0 in a list never filled.
  ghost predicate CountsRight(c: seq<int>, top: int, h: seq<int>) {
    && |h| > 0 && c == TallerRow(h) && -1 <= top <= CAP
    && (forall k :: 0 < k < |h| ==> h[k] <= top + 1)
    && (top > 0 ==> c[top] > 0)
  }

  lemma RaisedCounts(c: seq<int>, top: int, h: seq<int>, p: int, lvl: int, c': seq<int>, top': int)
    requires CountsRight(c, top, h) && 0 <= p < |h| && |c'| == CAP + 1 && 0 <= lvl <= CAP
    requires top' == if lvl > top then lvl else top
    requires forall i :: 0 <= i <= CAP ==> c'[i] == c[i] + if i <= lvl then 1 else 0
    ensures CountsRight(c', top', Raised(h, p, lvl + 1))
  {
    forall i | 0 <= i <= CAP ensures c'[i] == Taller(Raised(h, p, lvl + 1)[1..], i) {
      RaisedTaller(h, p, lvl + 1, i);
    }
  }

  lemma DroppedTaller(h: seq<int>, t: int, i: int)
    requires 0 < t < |h|
    ensures Taller(h[1..], i) == Taller(Dropped(h, t)[1..], i) + (if h[t] > i then 1 else 0)
  {
    var a, b := h[1..t], h[t + 1..];
    assert Dropped(h, t)[1..] == a + b;
    assert h[1..] == a + ([h[t]] + b);
    assert ([h[t]] + b)[1..] == b;
    TallerConcat(a, [h[t]] + b, i);
    TallerConcat(a, b, i);
  }

  lemma {:induction false} TallerMono(h: seq<int>, i: int, j: int)
    requires i <= j
    ensures Taller(h, j) <= Taller(h, i)
  {
    if h != [] {
      TallerMono(h[1..], i, j);
    }
  }

  // While levels a.. have lost one element and the rest not yet: `top` has followed the highest
  // level that still has an element, down to a - 1 at the least.
  ghost predicate TopSoFar(top: int, a: int, was: int, n: seq<int>) {
    && a - 1 <= top <= was <= CAP && |n| == CAP + 1 && 0 <= a <= CAP + 1
    && (forall j :: top < j <= CAP && j >= a ==> n[j] == 0)
    && (top > a - 1 ==> n[top] > 0)
  }

  lemma TopStep(top: int, a: int, was: int, h: seq<int>)
    requires |h| > 0 && TopSoFar(top, a, was, TallerRow(h)) && 0 < a <= was + 1
    ensures Taller(h[1..], a - 1) == 0 ==> TopSoFar(top - 1, a - 1, was, TallerRow(h))
    ensures Taller(h[1..], a - 1) > 0 ==> TopSoFar(top, a - 1, was, TallerRow(h))
  {
    if top > a - 1 {
      TallerMono(h[1..], a - 1, top);
    }
  }

  lemma TopStart(h: seq<int>, top: int)
    requires |h| > 0 && -1 <= top <= CAP && forall k :: 0 < k < |h| ==> h[k] <= top + 1
    ensures TopSoFar(top, top + 1, top, TallerRow(h))
  {
    forall j | top < j <= CAP ensures Taller(h[1..], j) == 0 {
      TallerSome(h[1..], j);
    }
  }

  lemma DroppedCounts(c: seq<int>, h: seq<int>, t: int, was: int, c': seq<int>, top: int)
    requires 0 < t < |h| && c == TallerRow(h) && |c'| == CAP + 1
    requires forall k :: 0 < k < |h| ==> h[k] <= CAP + 1
    requires forall i :: 0 <= i <= CAP ==> c'[i] == c[i] - if i < h[t] then 1 else 0
    requires TopSoFar(top, 0, was, TallerRow(Dropped(h, t)))
    ensures CountsRight(c', top, Dropped(h, t))
  {
    var g := Dropped(h, t);
    forall i | 0 <= i <= CAP ensures c'[i] == Taller(g[1..], i) {
      DroppedTaller(h, t, i);
    }
    if top < CAP {
      assert TallerRow(g)[top + 1] == 0;
      TallerSome(g[1..], top + 1);
      forall k | 0 < k < |g| ensures g[k] <= top + 1 {
        assert g[1..][k - 1] == g[k];
      }
    }
  }

  // Above the highest level in use after a removal, only the head is on the path.
  lemma PathAtTop(c: seq<int>, top: int, h: seq<int>, t: int, j: int, q: int)
    requires 0 < t < |h| && CountsRight(c, top, Dropped(h, t)) && IsLast(h, q, j, t - 1) && j > top
    ensures q == 0
  {
    var g := Dropped(h, t);
    assert forall k :: 0 < k < t ==> g[k] == h[k];
  }
}
