/** What pointers and spans must say, on snapshots of the nodes' rows.  The nodes are values of any
    type N here; `nil` is what a pointer holds at the end of a level. */
module Links {
  import opened Levels

  // One insertion or removal: the nodes and heights it starts from, where it happens, the path to it,
  // the rows and level counts as they were, and what the rows of the path's nodes are to become.
  datatype Plan<N> = Plan(ns: seq<N>, h: seq<int>, pos: int, path: seq<int>,
                          F: seq<seq<N>>, S: seq<seq<int>>, C: seq<int>, toF: seq<N>, toS: seq<int>) {
    ghost predicate Fits() {
      && |toF| == |toS| == |C| == CAP + 1 && |F| == |S| == |h| == |ns|
      && Reaches(F, path, CAP + 1) && Reaches(S, path, CAP + 1)
      && (forall k :: 0 <= k < |h| ==> |F[k]| == |S[k]| == h[k] <= CAP + 1)
    }

    // What level j of an insertion needs: its node on the path and the span that node will get.
    ghost predicate Ready(j: int, n: N, lvl: int, hierarchy: seq<N>, top: int) {
      && 0 <= j <= CAP && |hierarchy| == CAP + 1 && Fits()
      && ns[path[j]] == (if j <= top then hierarchy[j] else ns[0])
      && (j > top ==> path[j] == 0)
      && toF[j] == n
      && toS[j] == if j <= lvl then pos - path[j] + 1 else S[path[j]][j] + 1
    }

    ghost predicate AllReady(n: N, lvl: int, hierarchy: seq<N>, top: int) {
      forall j {:trigger Ready(j, n, lvl, hierarchy, top)} :: 0 <= j <= CAP ==> Ready(j, n, lvl, hierarchy, top)
    }

    lemma ReadyAt(j: int, n: N, lvl: int, hierarchy: seq<N>, top: int)
      requires AllReady(n, lvl, hierarchy, top) && 0 <= j <= CAP
      ensures Ready(j, n, lvl, hierarchy, top)
    {
    }

    // What level j of a removal needs: its node on the path and what that node's row becomes.
    ghost predicate RowsFit(j: int) {
      && 0 <= j <= CAP && Fits() && 0 < pos < |ns|
      && IsLast(h, path[j], j, pos - 1)
      && toS[j] == S[path[j]][j] + (if j < h[pos] then S[pos][j] else 0) - 1
      && (j < h[pos] ==> toF[j] == F[pos][j])
    }

    ghost predicate AllFit() {
      forall j {:trigger RowsFit(j)} :: 0 <= j <= CAP ==> RowsFit(j)
    }

    lemma FitAt(j: int)
      requires AllFit() && 0 <= j <= CAP
      ensures RowsFit(j)
    {
    }

    // The search of a removal has remembered the path's node of level j.
    ghost predicate Held(j: int, hierarchy: seq<N>) {
      && 0 <= j < |hierarchy| && j < |path| && 0 <= path[j] < |ns|
      && hierarchy[j] == ns[path[j]]
    }

    // ... on the levels from a to b.
    ghost predicate HeldAll(hierarchy: seq<N>, a: int, b: int) {
      forall j {:trigger Held(j, hierarchy)} :: a <= j <= b ==> Held(j, hierarchy)
    }

    lemma HeldAt(j: int, hierarchy: seq<N>, a: int, b: int)
      requires HeldAll(hierarchy, a, b) && a <= j <= b
      ensures Held(j, hierarchy)
    {
    }
  }

  // What a span and a pointer of the node at position k mean on level i.
  ghost predicate LinkOk<N>(ns: seq<N>, nil: N, h: seq<int>, k: int, i: int, r: int, f: N) {
    IsNext(h, k, i, r) && f == if r < |ns| then ns[r] else nil
  }

  ghost predicate Threaded<N>(ns: seq<N>, nil: N, h: seq<int>, S: seq<seq<int>>, F: seq<seq<N>>) {
    && |ns| == |h| == |S| == |F|
    && (forall k {:trigger RowOk(ns, nil, h, k, S[k], F[k])} :: 0 <= k < |h| ==> RowOk(ns, nil, h, k, S[k], F[k]))
  }

  ghost predicate RowOk<N>(ns: seq<N>, nil: N, h: seq<int>, k: int, s: seq<int>, f: seq<N>) {
    && 0 <= k < |h| && |s| == |f| == h[k]
    && (forall i {:trigger s[i]} {:trigger f[i]} :: 0 <= i < h[k] ==> LinkOk(ns, nil, h, k, i, k + s[i], f[i]))
  }

  // Threaded hold again once the new node's rows and the rewritten rows are put together.
  lemma RaisedLinks<N>(ns: seq<N>, nil: N, h: seq<int>, S: seq<seq<int>>, F: seq<seq<N>>,
      path: seq<int>, p: int, lvl: int, n: N, toS: seq<int>, toF: seq<N>,
      S1: seq<seq<int>>, F1: seq<seq<N>>, newS: seq<int>, newF: seq<N>)
    requires Threaded(ns, nil, h, S, F) && IsPath(h, path, p) && 0 <= lvl <= CAP
    requires forall k :: 0 <= k < |h| ==> h[k] <= CAP + 1 && |S[k]| == |F[k]| == h[k]
    requires Reaches(S, path, CAP + 1) && Reaches(F, path, CAP + 1)
    requires toS == SpansBefore(S, path, lvl, p) && toF == seq(CAP + 1, _ => n)
    requires S1 == Rows(S, path, 0, CAP + 1, toS) && F1 == Rows(F, path, 0, lvl + 1, toF)
    requires newS == SpansBehind(S, path, lvl + 1, p) && newF == Picked(F, path, lvl + 1)
    ensures Threaded(Raised(ns, p, n), nil, Raised(h, p, lvl + 1), Raised(S1, p, newS), Raised(F1, p, newF))
  {
    hide RowOk;
    var ns2, h2 := Raised(ns, p, n), Raised(h, p, lvl + 1);
    forall k | 0 <= k < |h| ensures RowOk(ns2, nil, h2, Shifted(p, k), S1[k], F1[k]) {
      RaisedRow(ns, nil, h, path, p, lvl, n, k, S[k], F[k], toS, toF);
    }
    NewRow(ns, nil, h, S, F, path, p, lvl, n);
    Assembled(ns2, nil, h2, S1, F1, newS, newF, p);
  }

  lemma Assembled<N>(ns: seq<N>, nil: N, h: seq<int>, S: seq<seq<int>>, F: seq<seq<N>>,
      s: seq<int>, f: seq<N>, p: int)
    requires 0 <= p < |S| == |F| && |ns| == |h| == |S| + 1
    requires forall k :: 0 <= k < |S| ==> RowOk(ns, nil, h, Shifted(p, k), S[k], F[k])
    requires RowOk(ns, nil, h, p + 1, s, f)
    ensures Threaded(ns, nil, h, Raised(S, p, s), Raised(F, p, f))
  {
    hide RowOk;
    var S2, F2 := Raised(S, p, s), Raised(F, p, f);
    forall k | 0 <= k < |h| ensures RowOk(ns, nil, h, k, S2[k], F2[k]) {
      var m := if k <= p + 1 then k else k - 1;
      if k != p + 1 {
        assert RowOk(ns, nil, h, Shifted(p, m), S[m], F[m]);
      }
    }
  }

  lemma RaisedRow<N>(ns: seq<N>, nil: N, h: seq<int>, path: seq<int>, p: int, lvl: int, n: N,
      k: int, s: seq<int>, f: seq<N>, toS: seq<int>, toF: seq<N>)
    requires |ns| == |h| && RowOk(ns, nil, h, k, s, f) && IsPath(h, path, p) && 0 <= lvl <= CAP && h[k] <= CAP + 1
    requires |toS| == |toF| == CAP + 1 && toF == seq(CAP + 1, _ => n)
    requires forall i :: 0 <= i < h[k] && path[i] == k ==> toS[i] == if i <= lvl then p - k + 1 else s[i] + 1
    ensures RowOk(Raised(ns, p, n), nil, Raised(h, p, lvl + 1), Shifted(p, k),
                  Row(s, k, path, 0, CAP + 1, toS), Row(f, k, path, 0, lvl + 1, toF))
  {
    hide LinkOk;
    var ns2, h2 := Raised(ns, p, n), Raised(h, p, lvl + 1);
    var s1, f1 := Row(s, k, path, 0, CAP + 1, toS), Row(f, k, path, 0, lvl + 1, toF);
    forall i | 0 <= i < h[k] ensures LinkOk(ns2, nil, h2, Shifted(p, k), i, Shifted(p, k) + s1[i], f1[i]) {
      RaisedLink(ns, nil, h, path, p, lvl, n, k, i, k + s[i], f[i]);
      assert IsLast(h, path[i], i, p);
    }
  }

  lemma NewRow<N>(ns: seq<N>, nil: N, h: seq<int>, S: seq<seq<int>>, F: seq<seq<N>>,
      path: seq<int>, p: int, lvl: int, n: N)
    requires Threaded(ns, nil, h, S, F) && IsPath(h, path, p) && 0 <= lvl <= CAP
    requires Reaches(S, path, CAP + 1) && Reaches(F, path, CAP + 1)
    ensures RowOk(Raised(ns, p, n), nil, Raised(h, p, lvl + 1), p + 1,
                  SpansBehind(S, path, lvl + 1, p), Picked(F, path, lvl + 1))
  {
    hide LinkOk;
    var ns2, h2 := Raised(ns, p, n), Raised(h, p, lvl + 1);
    var newS, newF := SpansBehind(S, path, lvl + 1, p), Picked(F, path, lvl + 1);
    forall i | 0 <= i <= lvl ensures LinkOk(ns2, nil, h2, p + 1, i, p + 1 + newS[i], newF[i]) {
      var q := path[i];
      assert IsLast(h, q, i, p);
      assert RowOk(ns, nil, h, q, S[q], F[q]);
      NewEntry(ns, nil, h, path, p, lvl, n, i, S[q][i], F[q][i]);
    }
  }

  lemma NewEntry<N>(ns: seq<N>, nil: N, h: seq<int>, path: seq<int>, p: int, lvl: int, n: N, i: int, s: int, f: N)
    requires |ns| == |h| && IsPath(h, path, p) && 0 <= i <= lvl <= CAP
    requires LinkOk(ns, nil, h, path[i], i, path[i] + s, f)
    ensures LinkOk(Raised(ns, p, n), nil, Raised(h, p, lvl + 1), p + 1, i, path[i] + s + 1, f)
  {
    assert IsLast(h, path[i], i, p);
    RaisedLink(ns, nil, h, path, p, lvl, n, path[i], i, path[i] + s, f);
  }

  lemma RaisedLink<N>(ns: seq<N>, nil: N, h: seq<int>, path: seq<int>, p: int, lvl: int, n: N,
      k: int, i: int, r: int, f: N)
    requires |ns| == |h| && IsPath(h, path, p) && 0 <= lvl <= CAP && 0 <= i <= CAP
    requires LinkOk(ns, nil, h, k, i, r, f) && h[k] > i
    ensures
      var ns2, h2 := Raised(ns, p, n), Raised(h, p, lvl + 1);
      && (k > p ==> LinkOk(ns2, nil, h2, k + 1, i, r + 1, f))
      && (k <= p && path[i] != k ==> LinkOk(ns2, nil, h2, k, i, r, f))
      && (path[i] == k && i > lvl ==> LinkOk(ns2, nil, h2, k, i, r + 1, f))
      && (path[i] == k && i <= lvl ==> LinkOk(ns2, nil, h2, k, i, p + 1, n) && LinkOk(ns2, nil, h2, p + 1, i, r + 1, f))
  {
    RaisedNext(h, p, lvl + 1, k, i, r);
    OnPath(h, path, p, k, i, r);
  }

  lemma DroppedLink<N>(ns: seq<N>, nil: N, h: seq<int>, path: seq<int>, t: int, k: int, i: int, r: int, f: N, q: int,
                       g: N)
    requires |ns| == |h| && 0 < t < |h| && IsPath(h, path, t - 1) && 0 <= i <= CAP
    requires LinkOk(ns, nil, h, k, i, r, f) && h[k] > i && k != t
    requires h[t] > i ==> LinkOk(ns, nil, h, t, i, q, g)
    ensures
      var ns2, h2 := Dropped(ns, t), Dropped(h, t);
      && (k > t ==> LinkOk(ns2, nil, h2, k - 1, i, r - 1, f))
      && (k < t && path[i] != k ==> LinkOk(ns2, nil, h2, k, i, r, f))
      && (path[i] == k && h[t] <= i ==> LinkOk(ns2, nil, h2, k, i, r - 1, f))
      && (path[i] == k && h[t] > i ==> r == t && LinkOk(ns2, nil, h2, k, i, q - 1, g))
  {
    DroppedNext(h, t, k, i, r);
    OnPath(h, path, t - 1, k, i, r);
  }

  lemma DroppedRow<N>(ns: seq<N>, nil: N, h: seq<int>, path: seq<int>, t: int, k: int, s: seq<int>, f: seq<N>,
      st: seq<int>, ft: seq<N>, toS: seq<int>, toF: seq<N>)
    requires |ns| == |h| && 0 < t < |h| && IsPath(h, path, t - 1) && k != t
    requires RowOk(ns, nil, h, k, s, f) && RowOk(ns, nil, h, t, st, ft) && h[k] <= CAP + 1 && h[t] <= CAP + 1
    requires |toS| == |toF| == CAP + 1
    requires forall i {:trigger toS[i]} ::
               0 <= i < h[k] && path[i] == k ==> toS[i] == s[i] + (if i < h[t] then st[i] else 0) - 1
    requires forall i {:trigger toF[i]} :: 0 <= i < h[t] ==> toF[i] == ft[i]
    ensures RowOk(Dropped(ns, t), nil, Dropped(h, t), Closed(t, k),
                  Row(s, k, path, 0, CAP + 1, toS), Row(f, k, path, 0, h[t], toF))
  {
    hide LinkOk;
    var s1, f1 := Row(s, k, path, 0, CAP + 1, toS), Row(f, k, path, 0, h[t], toF);
    forall i | 0 <= i < h[k]
      ensures LinkOk(Dropped(ns, t), nil, Dropped(h, t), Closed(t, k), i, Closed(t, k) + s1[i], f1[i])
    {
      if path[i] == k {
        assert s1[i] == toS[i] && f1[i] == if i < h[t] then ft[i] else f[i];
      }
      DroppedAt(ns, nil, h, path, t, k, s, f, st, ft, i);
    }
  }

  lemma DroppedAt<N>(ns: seq<N>, nil: N, h: seq<int>, path: seq<int>, t: int, k: int, s: seq<int>, f: seq<N>,
      st: seq<int>, ft: seq<N>, i: int)
    requires |ns| == |h| && 0 < t < |h| && IsPath(h, path, t - 1) && k != t
    requires RowOk(ns, nil, h, k, s, f) && RowOk(ns, nil, h, t, st, ft) && 0 <= i < h[k] <= CAP + 1
    ensures LinkOk(Dropped(ns, t), nil, Dropped(h, t), Closed(t, k), i,
                   Closed(t, k) + if path[i] == k then s[i] + (if i < h[t] then st[i] else 0) - 1 else s[i],
                   if path[i] == k && i < h[t] then ft[i] else f[i])
  {
    hide LinkOk;
    if i < h[t] {
      DroppedEntry(ns, nil, h, path, t, k, i, s[i], f[i], st[i], ft[i]);
    } else {
      DroppedEntry(ns, nil, h, path, t, k, i, s[i], f[i], 0, nil);
    }
  }

  lemma DroppedEntry<N>(ns: seq<N>, nil: N, h: seq<int>, path: seq<int>, t: int, k: int, i: int, s: int, f: N,
                        st: int, ft: N)
    requires |ns| == |h| && 0 < t < |h| && IsPath(h, path, t - 1) && 0 <= i <= CAP
    requires LinkOk(ns, nil, h, k, i, k + s, f) && h[k] > i && k != t
    requires if h[t] > i then LinkOk(ns, nil, h, t, i, t + st, ft) else st == 0
    ensures LinkOk(Dropped(ns, t), nil, Dropped(h, t), Closed(t, k), i,
                   Closed(t, k) + if path[i] == k then s + st - 1 else s, if path[i] == k && i < h[t] then ft else f)
  {
    assert IsNext(h, k, i, k + s);
    hide LinkOk;
    hide IsNext;
    hide Dropped;
    DroppedLink(ns, nil, h, path, t, k, i, k + s, f, t + st, ft);
    OnPath(h, path, t - 1, k, i, k + s);
  }

  // Pointers and spans stay right when the node at position t is taken out and the rows of the path's
  // nodes are rewritten; what the row of the removed node holds (ft2) does not matter.
  lemma DroppedLinks<N>(ns: seq<N>, nil: N, h: seq<int>, S: seq<seq<int>>, F: seq<seq<N>>, path: seq<int>, t: int,
      toS: seq<int>, toF: seq<N>, S1: seq<seq<int>>, F1: seq<seq<N>>)
    requires Threaded(ns, nil, h, S, F) && 0 < t < |h| && IsPath(h, path, t - 1)
    requires forall k :: 0 <= k < |h| ==> h[k] <= CAP + 1 && |S[k]| == |F[k]| == h[k]
    requires Reaches(S, path, CAP + 1)
    requires toS == SpansWithout(S, path, t) && toF == PointersPast(F[t], nil)
    requires |S1| == |F1| == |h|
    requires forall k :: 0 <= k < |h| && k != t ==> S1[k] == Row(S[k], k, path, 0, CAP + 1, toS)
    requires forall k :: 0 <= k < |h| && k != t ==> F1[k] == Row(F[k], k, path, 0, h[t], toF)
    ensures Threaded(Dropped(ns, t), nil, Dropped(h, t), Dropped(S1, t), Dropped(F1, t))
  {
    hide RowOk;
    var ns2, h2, S2, F2 := Dropped(ns, t), Dropped(h, t), Dropped(S1, t), Dropped(F1, t);
    forall k | 0 <= k < |h| && k != t ensures RowOk(ns2, nil, h2, Closed(t, k), S1[k], F1[k]) {
      assert RowOk(ns, nil, h, k, S[k], F[k]) && RowOk(ns, nil, h, t, S[t], F[t]);
      DroppedRow(ns, nil, h, path, t, k, S[k], F[k], S[t], F[t], toS, toF);
    }
    forall k | 0 <= k < |h2| ensures RowOk(ns2, nil, h2, k, S2[k], F2[k]) {
      var m := if k < t then k else k + 1;
      assert RowOk(ns2, nil, h2, Closed(t, m), S1[m], F1[m]);
    }
  }
}
