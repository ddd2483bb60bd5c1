/** Scores and members of a sorted set, and how they compare (internal/datastructure/sortedset.go).
    A score is a float64: a number, an infinity or NaN.  Only the order of the numbers matters here, so
    they are reals; the two zeros of float64 compare as equal and are one value. */
module Scores {
  import opened Orders

  datatype Score = NaN | MinusInf | Finite(x: real) | PlusInf

  // Go's <= on float64: false as soon as NaN is involved.
  predicate AtMostScore(a: Score, b: Score) {
    match (a, b)
    case (NaN, _) => false
    case (_, NaN) => false
    case (MinusInf, _) => true
    case (_, PlusInf) => true
    case (Finite(x), Finite(y)) => x <= y
    case _ => false
  }

  // Go's == on float64.
  predicate SameScore(a: Score, b: Score) { a == b && a != NaN }

  // Go's cmp.Compare on float64: NaN comes first and equals itself.
  function CompareScores(a: Score, b: Score): int {
    if a == b then 0
    else if a == NaN || (b != NaN && AtMostScore(a, b)) then -1
    else 1
  }

  // Go's cmp.Compare on strings.
  function CompareKeys(a: string, b: string): int {
    if a == [] && b == [] then 0
    else if a == [] then -1
    else if b == [] then 1
    else if a[0] < b[0] then -1
    else if a[0] > b[0] then 1
    else CompareKeys(a[1..], b[1..])
  }

  datatype KeyValue = KeyValue(key: string, value: Score)

  function Compare(kv: KeyValue, other: KeyValue): int {
    if SameScore(kv.value, other.value) then CompareKeys(kv.key, other.key)
    else CompareScores(kv.value, other.value)
  }

  // Numbers in their order, between the infinities; NaN comes before them all.
  ghost predicate ScoreBefore(a: Score, b: Score) {
    || (a == NaN && b != NaN)
    || (a == MinusInf && (b.Finite? || b == PlusInf))
    || (a.Finite? && (b == PlusInf || (b.Finite? && a.x < b.x)))
  }

  // Dictionary order: a proper prefix, or a smaller character where the two first differ.
  ghost predicate KeyBefore(a: string, b: string) {
    exists n: nat :: n <= |a| && n < |b| && a[..n] == b[..n] && (n == |a| || a[n] < b[n])
  }

  // A smaller score, or the same score - two NaN are not the same - and an earlier key.
  ghost predicate Before(kv: KeyValue, other: KeyValue) {
    || ScoreBefore(kv.value, other.value)
    || (kv.value == other.value && kv.value != NaN && KeyBefore(kv.key, other.key))
  }

  lemma {:induction false} KeyOrder(a: string, b: string)
    ensures CompareKeys(a, b) < 0 <==> KeyBefore(a, b)
  {
    if a == [] || b == [] {
      assert a[..0] == b[..0];
    } else if a[0] != b[0] {
      assert a[..0] == b[..0];
      assert forall n: nat :: 0 < n <= |a| && n < |b| ==> a[..n][0] != b[..n][0];
    } else {
      KeyOrder(a[1..], b[1..]);
      KeyBeforeStep(a, b);
    }
  }

  lemma KeyBeforeStep(a: string, b: string)
    requires a != [] && b != [] && a[0] == b[0]
    ensures KeyBefore(a, b) <==> KeyBefore(a[1..], b[1..])
  {
    if KeyBefore(a[1..], b[1..]) {
      var c, d := a[1..], b[1..];
      var n: nat :| n <= |c| && n < |d| && c[..n] == d[..n] && (n == |c| || c[n] < d[n]);
      assert a[..n + 1] == [a[0]] + a[1..][..n] && b[..n + 1] == [b[0]] + b[1..][..n];
    }
    if n: nat :| n <= |a| && n < |b| && a[..n] == b[..n] && (n == |a| || a[n] < b[n]) {
      assert n > 0;
      assert a[1..][..n - 1] == a[..n][1..] && b[1..][..n - 1] == b[..n][1..];
    }
  }

  // The comparator is that order, for all scores and keys.
  lemma CompareIsBefore(a: KeyValue, b: KeyValue)
    ensures Compare(a, b) < 0 <==> Before(a, b)
  {
    KeyOrder(a.key, b.key);
  }

  // Go's <= is false for NaN and otherwise says that the other number is not the smaller one.
  lemma AtMostIsNotAfter(a: Score, b: Score)
    ensures AtMostScore(a, b) <==> a != NaN && b != NaN && !ScoreBefore(b, a)
  {
  }

  lemma {:induction false} KeysMirror(a: string, b: string)
    ensures CompareKeys(a, b) < 0 <==> CompareKeys(b, a) > 0
    ensures CompareKeys(a, b) == 0 <==> a == b
  {
    if a != [] && b != [] && a[0] == b[0] {
      KeysMirror(a[1..], b[1..]);
      assert a == [a[0]] + a[1..] && b == [b[0]] + b[1..];
    }
  }

  lemma {:induction false} KeysChain(a: string, b: string, c: string)
    requires CompareKeys(a, b) <= 0 && CompareKeys(b, c) <= 0
    ensures CompareKeys(a, c) <= 0
  {
    if a != [] && b != [] && c != [] && a[0] == b[0] == c[0] {
      KeysChain(a[1..], b[1..], c[1..]);
    }
  }

  lemma CompareIsPreorder()
    ensures TotalPreorder(Compare)
  {
    forall a, b ensures Compare(a, b) < 0 <==> Compare(b, a) > 0 {
      KeysMirror(a.key, b.key);
    }
    forall a, b, c | AtMost(Compare, a, b) && AtMost(Compare, b, c) ensures AtMost(Compare, a, c) {
      if CompareKeys(a.key, b.key) <= 0 && CompareKeys(b.key, c.key) <= 0 {
        KeysChain(a.key, b.key, c.key);
      }
    }
  }

  // Distinct members are told apart, except that all NaN scores look the same whatever the key.
  lemma CompareEqual(a: KeyValue, b: KeyValue)
    ensures Compare(a, b) == 0 <==> a == b || (a.value == NaN && b.value == NaN)
  {
    KeysMirror(a.key, b.key);
  }

  // The empty key is the smallest, so ("", score) cuts exactly at the score.
  lemma CompareToLeast(kv: KeyValue, s: Score)
    requires s != NaN
    ensures Compare(kv, KeyValue("", s)) >= 0 <==> AtMostScore(s, kv.value)
  {
  }
}
