/** Comparators and strictly sorted sequences.
    A comparator answers with the sign convention of Go's `cmp.Compare`.  It is a total preorder:
    two values may compare as equal without being the same value. */
module Orders {

  ghost predicate TotalPreorder<T(!new)>(cmp: (T, T) -> int) {
    && (forall a, b :: cmp(a, b) < 0 <==> cmp(b, a) > 0)
    && (forall a, b, c :: AtMost(cmp, a, b) && AtMost(cmp, b, c) ==> AtMost(cmp, a, c))
  }

  ghost predicate AtMost<T>(cmp: (T, T) -> int, a: T, b: T) {
    cmp(a, b) <= 0
  }

  ghost predicate Ascending<T>(cmp: (T, T) -> int, s: seq<T>) {
    forall i, j :: 0 <= i < j < |s| ==> cmp(s[i], s[j]) < 0
  }

  // The number of elements that compare below v; meaningful for any sequence, sorted or not.
  ghost function CountBelow<T>(cmp: (T, T) -> int, s: seq<T>, v: T): (n: nat)
    ensures n <= |s|
  {
    if s == [] then 0 else (if cmp(s[0], v) < 0 then 1 else 0) + CountBelow(cmp, s[1..], v)
  }

  ghost predicate Holds<T>(cmp: (T, T) -> int, s: seq<T>, v: T) {
    exists i :: 0 <= i < |s| && cmp(s[i], v) == 0
  }

  // Inserting a value that already has an equal changes nothing.
  ghost function Inserted<T>(cmp: (T, T) -> int, s: seq<T>, v: T): seq<T> {
    if Holds(cmp, s, v) then s
    else var p := CountBelow(cmp, s, v); s[..p] + [v] + s[p..]
  }

  ghost function Deleted<T>(cmp: (T, T) -> int, s: seq<T>, v: T): seq<T>
    requires CountBelow(cmp, s, v) < |s|
  {
    var p := CountBelow(cmp, s, v); s[..p] + s[p + 1..]
  }

  // lo elements are below v and hi are not above it; v cuts the sequence there.
  ghost predicate Cuts<T>(cmp: (T, T) -> int, s: seq<T>, v: T, lo: nat, hi: nat) {
    && lo <= hi <= |s| && hi <= lo + 1
    && (forall k :: 0 <= k < |s| ==> (cmp(s[k], v) < 0 <==> k < lo))
    && (forall k :: 0 <= k < |s| ==> (cmp(s[k], v) <= 0 <==> k < hi))
  }

  lemma {:induction false} CountOfPrefix<T>(cmp: (T, T) -> int, s: seq<T>, v: T, n: nat)
    requires n <= |s|
    requires forall k :: 0 <= k < |s| ==> (cmp(s[k], v) < 0 <==> k < n)
    ensures CountBelow(cmp, s, v) == n
  {
    if s != [] {
      var m := if n == 0 then 0 else n - 1;
      forall k | 0 <= k < |s[1..]| ensures cmp(s[1..][k], v) < 0 <==> k < m {
        assert s[1..][k] == s[k + 1];
      }
      CountOfPrefix(cmp, s[1..], v, m);
    }
  }

  lemma Chain<T(!new)>(cmp: (T, T) -> int, a: T, b: T, c: T)
    requires TotalPreorder(cmp)
    ensures cmp(a, b) < 0 && cmp(b, c) <= 0 ==> cmp(a, c) < 0
    ensures cmp(a, b) <= 0 && cmp(b, c) < 0 ==> cmp(a, c) < 0
  {
    assert cmp(b, a) > 0 <==> cmp(a, b) < 0;
    assert cmp(c, a) > 0 <==> cmp(a, c) < 0;
    assert cmp(c, b) > 0 <==> cmp(b, c) < 0;
    assert AtMost(cmp, b, c) && AtMost(cmp, c, a) ==> AtMost(cmp, b, a);
    assert AtMost(cmp, c, a) && AtMost(cmp, a, b) ==> AtMost(cmp, c, b);
  }

  // A value cuts an ascending sequence, and where it does is fixed by counting.
  lemma {:induction false} CutExists<T(!new)>(cmp: (T, T) -> int, s: seq<T>, v: T) returns (lo: nat, hi: nat)
    requires TotalPreorder(cmp) && Ascending(cmp, s)
    ensures Cuts(cmp, s, v, lo, hi)
    ensures lo == CountBelow(cmp, s, v)
    ensures Holds(cmp, s, v) <==> lo < hi
  {
    lo, hi := 0, 0;
    while lo < |s| && cmp(s[lo], v) < 0
      invariant lo <= |s| && forall k :: 0 <= k < lo ==> cmp(s[k], v) < 0
    {
      lo := lo + 1;
    }
    forall k | lo <= k < |s| ensures cmp(s[k], v) >= 0 && (k > lo ==> cmp(s[k], v) > 0) {
      if k > lo {
        assert cmp(s[lo], s[k]) < 0;
        Chain(cmp, s[lo], s[k], v);
      }
    }
    hi := if lo < |s| && cmp(s[lo], v) == 0 then lo + 1 else lo;
    CountOfPrefix(cmp, s, v, lo);
  }

  lemma SpliceAscending<T(!new)>(cmp: (T, T) -> int, s: seq<T>, p: nat, v: T)
    requires Ascending(cmp, s) && p <= |s|
    requires forall k :: 0 <= k < p ==> cmp(s[k], v) < 0
    requires forall k :: p <= k < |s| ==> cmp(v, s[k]) < 0
    ensures Ascending(cmp, s[..p] + [v] + s[p..])
  {
  }

  lemma InsertedAscending<T(!new)>(cmp: (T, T) -> int, s: seq<T>, v: T)
    requires TotalPreorder(cmp) && Ascending(cmp, s)
    ensures Ascending(cmp, Inserted(cmp, s, v))
    ensures Holds(cmp, Inserted(cmp, s, v), v)
  {
    var lo, hi := CutExists(cmp, s, v);
    if lo == hi {
      var r := Inserted(cmp, s, v);
      forall k | lo <= k < |s| ensures cmp(v, s[k]) < 0 {
        assert cmp(s[k], v) > 0;
      }
      SpliceAscending(cmp, s, lo, v);
      assert cmp(v, v) < 0 <==> cmp(v, v) > 0;
      assert r[lo] == v;
    }
  }

  lemma DeletedAscending<T(!new)>(cmp: (T, T) -> int, s: seq<T>, v: T)
    requires TotalPreorder(cmp) && Ascending(cmp, s) && Holds(cmp, s, v)
    ensures CountBelow(cmp, s, v) < |s|
    ensures Ascending(cmp, Deleted(cmp, s, v))
    ensures !Holds(cmp, Deleted(cmp, s, v), v)
  {
    var lo, hi := CutExists(cmp, s, v);
    DeletedAt(cmp, s, v, lo);
  }

  // Needs no law of the comparator.
  lemma DeletedAt<T>(cmp: (T, T) -> int, s: seq<T>, v: T, lo: nat)
    requires Ascending(cmp, s) && Cuts(cmp, s, v, lo, lo + 1) && CountBelow(cmp, s, v) == lo
    ensures Ascending(cmp, Deleted(cmp, s, v))
    ensures !Holds(cmp, Deleted(cmp, s, v), v)
  {
    var r := Deleted(cmp, s, v);
    assert forall i :: 0 <= i < |r| ==> r[i] == if i < lo then s[i] else s[i + 1];
  }

  ghost function Elems<T>(s: seq<T>): set<T> { set x | x in s }

  lemma InsertedElems<T(!new)>(cmp: (T, T) -> int, s: seq<T>, v: T)
    ensures Elems(Inserted(cmp, s, v)) == if Holds(cmp, s, v) then Elems(s) else Elems(s) + {v}
  {
    if !Holds(cmp, s, v) {
      var p := CountBelow(cmp, s, v);
      var r := Inserted(cmp, s, v);
      forall x ensures x in r <==> x in s || x == v {
        assert s == s[..p] + s[p..];
        assert x in s <==> x in s[..p] || x in s[p..];
      }
    }
  }

  lemma CutOutElems<T>(s: seq<T>, p: nat)
    requires p < |s| && s[p] !in s[..p] && s[p] !in s[p + 1..]
    ensures Elems(s[..p] + s[p + 1..]) == Elems(s) - {s[p]}
  {
    assert s == s[..p] + [s[p]] + s[p + 1..];
  }

  // Deleting takes out the one element that compares equal.
  lemma DeletedElems<T(!new)>(cmp: (T, T) -> int, s: seq<T>, v: T)
    requires TotalPreorder(cmp) && Ascending(cmp, s) && Holds(cmp, s, v)
    ensures CountBelow(cmp, s, v) < |s| && cmp(s[CountBelow(cmp, s, v)], v) == 0
    ensures Elems(Deleted(cmp, s, v)) == Elems(s) - {s[CountBelow(cmp, s, v)]}
  {
    var lo, hi := CutExists(cmp, s, v);
    Distinct(cmp, s, lo);
    CutOutElems(s, lo);
  }

  lemma Distinct<T(!new)>(cmp: (T, T) -> int, s: seq<T>, i: nat)
    requires TotalPreorder(cmp) && Ascending(cmp, s) && i < |s|
    ensures s[i] !in s[..i] && s[i] !in s[i + 1..]
  {
    assert cmp(s[i], s[i]) < 0 <==> cmp(s[i], s[i]) > 0;
  }

  // Rank and selection are inverse: the element at a position has that many below it, and the element behind
  // those below a value that is held equals it.
  lemma RankInverse<T(!new)>(cmp: (T, T) -> int, s: seq<T>, i: nat, v: T)
    requires TotalPreorder(cmp) && Ascending(cmp, s)
    ensures i < |s| ==> Holds(cmp, s, s[i]) && CountBelow(cmp, s, s[i]) == i
    ensures Holds(cmp, s, v) ==> CountBelow(cmp, s, v) < |s| && cmp(s[CountBelow(cmp, s, v)], v) == 0
  {
    var lo, hi := CutExists(cmp, s, v);
    if i < |s| {
      var l, h := CutExists(cmp, s, s[i]);
      assert cmp(s[i], s[i]) == 0;
    }
  }

  ghost function BelowSet<T(!new)>(cmp: (T, T) -> int, s: seq<T>, v: T): (r: set<T>)
    ensures forall x :: x in r <==> x in s && cmp(x, v) < 0
  {
    set x | x in s && cmp(x, v) < 0
  }

  // Counting the elements below a value is counting members of a set.
  lemma {:induction false} CountIsCardinality<T(!new)>(cmp: (T, T) -> int, s: seq<T>, v: T)
    requires TotalPreorder(cmp) && Ascending(cmp, s)
    ensures CountBelow(cmp, s, v) == |BelowSet(cmp, s, v)|
  {
    if s == [] {
      assert BelowSet(cmp, s, v) == {};
    } else {
      CountIsCardinality(cmp, s[1..], v);
      Distinct(cmp, s, 0);
      var rest := BelowSet(cmp, s[1..], v);
      assert forall x :: x in s <==> x == s[0] || x in s[1..];
      if cmp(s[0], v) < 0 {
        assert BelowSet(cmp, s, v) == rest + {s[0]};
      } else {
        assert BelowSet(cmp, s, v) == rest;
      }
    }
  }

  // An ascending sequence is determined by its elements.
  lemma {:induction false} AscendingUnique<T(!new)>(cmp: (T, T) -> int, s: seq<T>, t: seq<T>)
    requires TotalPreorder(cmp) && Ascending(cmp, s) && Ascending(cmp, t) && Elems(s) == Elems(t)
    ensures s == t
  {
    assert t != [] ==> t[0] in Elems(t);
    if s != [] {
      assert s[0] in Elems(t) && t != [] && t[0] in Elems(s);
      var i :| 0 <= i < |t| && t[i] == s[0];
      var j :| 0 <= j < |s| && s[j] == t[0];
      assert cmp(s[0], t[0]) < 0 <==> cmp(t[0], s[0]) > 0;
      assert s[0] == t[0];
      Distinct(cmp, s, 0);
      Distinct(cmp, t, 0);
      assert s == [s[0]] + s[1..] && t == [t[0]] + t[1..];
      assert Elems(s[1..]) == Elems(s) - {s[0]};
      assert Elems(t[1..]) == Elems(t) - {t[0]};
      AscendingUnique(cmp, s[1..], t[1..]);
    } else {
      assert Elems(s) == {};
    }
  }

  lemma {:induction false} ElemsSize<T(!new)>(cmp: (T, T) -> int, s: seq<T>)
    requires TotalPreorder(cmp) && Ascending(cmp, s)
    ensures |Elems(s)| == |s|
  {
    if s != [] {
      ElemsSize(cmp, s[1..]);
      Distinct(cmp, s, 0);
      assert Elems(s) == Elems(s[1..]) + {s[0]} by {
        assert forall x :: x in s <==> x == s[0] || x in s[1..];
      }
    }
  }

  // Taking a key out of a map takes one away from its size.
  lemma OneLess<K, V>(m: map<K, V>, k: K)
    requires k in m
    ensures |m - {k}| == |m| - 1
  {
    assert (m - {k}).Keys == m.Keys - {k};
    assert |m| == |m.Keys| && |m - {k}| == |(m - {k}).Keys|;
  }

  lemma Associates<T>(a: seq<T>, b: seq<T>, c: seq<T>)
    ensures (a + b) + c == a + (b + c)
  {
  }
}
