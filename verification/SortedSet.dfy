/** The sorted set (internal/datastructure/sortedset.go): a skip list of (score, key) pairs beside a map
    from key to score. */
module SortedSets {
  import opened Orders
  import opened Scores
  import opened Levels
  import opened SkipLists

  ghost function Pairs(score: map<string, Score>): (r: set<KeyValue>)
    ensures forall kv :: kv in r <==> kv.key in score && score[kv.key] == kv.value
  {
    set k | k in score :: KeyValue(k, score[k])
  }

  lemma {:induction false} PairsSize(score: map<string, Score>)
    ensures |Pairs(score)| == |score|
    decreases |score|
  {
    if score == map[] {
      assert Pairs(score) == {};
    } else {
      var k :| k in score;
      PairsSize(score - {k});
      assert Pairs(score) == Pairs(score - {k}) + {KeyValue(k, score[k])};
    }
  }

  // The list holds exactly the pairs of the map.
  ghost predicate Agrees(values: seq<KeyValue>, score: map<string, Score>) {
    Elems(values) == Pairs(score)
  }

  // What one pair of an Add does to the list and the map.
  ghost function AddedValues(values: seq<KeyValue>, score: map<string, Score>, kv: KeyValue): seq<KeyValue>
    requires Ascending(Compare, values) && Agrees(values, score)
  {
    if kv.key in score then
      DeletePossible(values, score, kv.key);
      Inserted(Compare, Deleted(Compare, values, KeyValue(kv.key, score[kv.key])), kv)
    else Inserted(Compare, values, kv)
  }

  lemma DeletePossible(values: seq<KeyValue>, score: map<string, Score>, key: string)
    requires Ascending(Compare, values) && Agrees(values, score) && key in score
    ensures Holds(Compare, values, KeyValue(key, score[key]))
    ensures CountBelow(Compare, values, KeyValue(key, score[key])) < |values|
  {
    var kv := KeyValue(key, score[key]);
    hide Compare;
    CompareIsPreorder();
    assert kv in Elems(values);
    var i :| 0 <= i < |values| && values[i] == kv;
    CompareEqual(kv, kv);
    DeletedElems(Compare, values, kv);
  }

  // Deleting the pair of a key leaves exactly the other pairs.
  lemma DeletedAgrees(values: seq<KeyValue>, score: map<string, Score>, key: string)
    requires Ascending(Compare, values) && Agrees(values, score) && key in score
    ensures CountBelow(Compare, values, KeyValue(key, score[key])) < |values|
    ensures Ascending(Compare, Deleted(Compare, values, KeyValue(key, score[key])))
    ensures Agrees(Deleted(Compare, values, KeyValue(key, score[key])), score - {key})
  {
    hide Compare;
    hide Ascending;
    hide Deleted;
    hide TotalPreorder;
    var kv := KeyValue(key, score[key]);
    CompareIsPreorder();
    DeletePossible(values, score, key);
    DeletedAscending(Compare, values, kv);
    DeletedElems(Compare, values, kv);
    var at := CountBelow(Compare, values, kv);
    assert kv in Elems(values);
    var i :| 0 <= i < |values| && values[i] == kv;
    CompareEqual(kv, kv);
    EqualsCoincide(values, at, i);
    assert Pairs(score - {key}) == Pairs(score) - {kv};
  }

  // Elements of an ascending list that compare equal to the same value are one element.
  lemma EqualsCoincide(values: seq<KeyValue>, i: int, j: int)
    requires Ascending(Compare, values) && 0 <= i < |values| && 0 <= j < |values|
    requires Compare(values[i], values[j]) == 0
    ensures i == j
  {
    hide Compare;
    CompareIsPreorder();
    assert Compare(values[j], values[i]) < 0 <==> Compare(values[i], values[j]) > 0;
  }

  // The pair that the comparator cannot tell from another member's pair.
  ghost predicate Clashes(score: map<string, Score>, kv: KeyValue) {
    kv.value == NaN && exists k :: k in score && k != kv.key && score[k] == NaN
  }

  // One Add keeps list and map in agreement exactly when it does not bring in a second NaN.
  lemma AddedAgrees(values: seq<KeyValue>, score: map<string, Score>, kv: KeyValue)
    requires Ascending(Compare, values) && Agrees(values, score)
    ensures Ascending(Compare, AddedValues(values, score, kv))
    ensures Agrees(AddedValues(values, score, kv), score[kv.key := kv.value]) <==> !Clashes(score, kv)
  {
    hide Compare;
    hide Ascending;
    hide Deleted;
    hide Inserted;
    if kv.key in score {
      DeletedAgrees(values, score, kv.key);
      InsertedAgrees(Deleted(Compare, values, KeyValue(kv.key, score[kv.key])), score - {kv.key}, kv);
      assert (score - {kv.key})[kv.key := kv.value] == score[kv.key := kv.value];
      assert Clashes(score, kv) <==> Clashes(score - {kv.key}, kv) by {
        if k :| k in score && k != kv.key && score[k] == NaN {
          assert k in score - {kv.key};
        }
      }
    } else {
      InsertedAgrees(values, score, kv);
    }
  }

  lemma PairsAdd(score: map<string, Score>, kv: KeyValue)
    requires kv.key !in score
    ensures Pairs(score[kv.key := kv.value]) == Pairs(score) + {kv} && kv !in Pairs(score)
  {
  }

  lemma InsertedAgrees(values: seq<KeyValue>, score: map<string, Score>, kv: KeyValue)
    requires Ascending(Compare, values) && Agrees(values, score) && kv.key !in score
    ensures Ascending(Compare, Inserted(Compare, values, kv))
    ensures Agrees(Inserted(Compare, values, kv), score[kv.key := kv.value]) <==> !Clashes(score, kv)
  {
    hide Compare;
    CompareIsPreorder();
    InsertedAscending(Compare, values, kv);
    InsertedElems(Compare, values, kv);
    HoldsMeansClash(values, score, kv);
    PairsAdd(score, kv);
    hide Pairs;
  }

  lemma HoldsMeansClash(values: seq<KeyValue>, score: map<string, Score>, kv: KeyValue)
    requires Agrees(values, score) && kv.key !in score
    ensures Holds(Compare, values, kv) <==> Clashes(score, kv)
  {
    hide Compare;
    if Clashes(score, kv) {
      var k :| k in score && k != kv.key && score[k] == NaN;
      assert KeyValue(k, NaN) in Elems(values);
      var i :| 0 <= i < |values| && values[i] == KeyValue(k, NaN);
      CompareEqual(values[i], kv);
    }
    if i :| 0 <= i < |values| && Compare(values[i], kv) == 0 {
      assert values[i] in Elems(values);
      CompareEqual(values[i], kv);
    }
  }

  // A concrete clash: two members with NaN scores leave the list one short of the map.
  lemma TwoNaNsDisagree()
    ensures
      var first := AddedMap(map[], [KeyValue("a", NaN)]);
      && Agrees([KeyValue("a", NaN)], first)
      && Ascending(Compare, [KeyValue("a", NaN)])
      && AddedValues([KeyValue("a", NaN)], first, KeyValue("b", NaN)) == [KeyValue("a", NaN)]
      && |AddedMap(first, [KeyValue("b", NaN)])| == 2
  {
    var first := AddedMap(map[], [KeyValue("a", NaN)]);
    var values := [KeyValue("a", NaN)];
    assert first == map["a" := NaN] by {
      assert [KeyValue("a", NaN)][1..] == [];
    }
    assert values[0] in values;
    CompareEqual(values[0], KeyValue("b", NaN));
    assert [KeyValue("b", NaN)][1..] == [];
    assert AddedMap(first, [KeyValue("b", NaN)]) == map["a" := NaN, "b" := NaN];
  }

  // One change of a sorted set.
  datatype Change = Added(kv: KeyValue) | Gone(key: string)

  ghost function NextMap(score: map<string, Score>, c: Change): map<string, Score> {
    match c
    case Added(kv) => score[kv.key := kv.value]
    case Gone(key) => score - {key}
  }

  ghost function NextValues(values: seq<KeyValue>, score: map<string, Score>, c: Change): (next: seq<KeyValue>)
    requires Ascending(Compare, values) && Agrees(values, score)
    ensures Ascending(Compare, next)
  {
    match c
    case Added(kv) =>
      AddedAgrees(values, score, kv);
      AddedValues(values, score, kv)
    case Gone(key) =>
      if key !in score then values
      else
        DeletedAgrees(values, score, key);
        Deleted(Compare, values, KeyValue(key, score[key]))
  }

  // List and map agree now and after each of the changes.
  ghost predicate AlwaysAgree(values: seq<KeyValue>, score: map<string, Score>, cs: seq<Change>)
    requires Ascending(Compare, values)
    decreases |cs|
  {
    && Agrees(values, score)
    && (cs == [] || AlwaysAgree(NextValues(values, score, cs[0]), NextMap(score, cs[0]), cs[1..]))
  }

  // No pair clashes when its turn comes.
  ghost predicate NeverClash(score: map<string, Score>, cs: seq<Change>)
    decreases |cs|
  {
    cs == [] || ((cs[0].Added? ==> !Clashes(score, cs[0].kv)) && NeverClash(NextMap(score, cs[0]), cs[1..]))
  }

  lemma ChangeAgrees(values: seq<KeyValue>, score: map<string, Score>, c: Change)
    requires Ascending(Compare, values) && Agrees(values, score)
    ensures Agrees(NextValues(values, score, c), NextMap(score, c)) <==> (c.Added? ==> !Clashes(score, c.kv))
  {
    hide Compare;
    hide Ascending;
    hide Agrees;
    hide Clashes;
    match c
    case Added(kv) => AddedAgrees(values, score, kv);
    case Gone(key) =>
      if key in score {
        DeletedAgrees(values, score, key);
      } else {
        assert score - {key} == score;
      }
  }

  // Over any run of changes list and map agree all the time exactly when no pair clashes at its turn.
  lemma {:induction false} AgreeExactly(values: seq<KeyValue>, score: map<string, Score>, cs: seq<Change>)
    requires Ascending(Compare, values) && Agrees(values, score)
    ensures AlwaysAgree(values, score, cs) <==> NeverClash(score, cs)
    decreases |cs|
  {
    hide Agrees;
    hide Clashes;
    hide Ascending;
    hide NextValues;
    hide NextMap;
    if cs != [] {
      ChangeAgrees(values, score, cs[0]);
      if cs[0].Added? ==> !Clashes(score, cs[0].kv) {
        AgreeExactly(NextValues(values, score, cs[0]), NextMap(score, cs[0]), cs[1..]);
      }
    }
  }

  // The map after a batch of pairs; a later pair of the same key wins.
  ghost function AddedMap(score: map<string, Score>, arg: seq<KeyValue>): map<string, Score>
    decreases |arg|
  {
    if arg == [] then score else AddedMap(score[arg[0].key := arg[0].value], arg[1..])
  }

  // No pair of the batch clashes when its turn comes.
  ghost predicate ClashFree(score: map<string, Score>, arg: seq<KeyValue>)
    decreases |arg|
  {
    arg == [] || (!Clashes(score, arg[0]) && ClashFree(score[arg[0].key := arg[0].value], arg[1..]))
  }

  // Redis-style index: negative counts from the end and stops at the front.
  function Clamped(n: int, x: int): int {
    if x >= 0 then x else if x + n >= 0 then x + n else 0
  }

  // The elements at positions a to b, both included, as far as they exist.
  function Window<T>(s: seq<T>, a: int, b: int): seq<T>
    requires 0 <= a
  {
    var hi := if b < |s| then b + 1 else |s|;
    if a < hi then s[a..hi] else []
  }

  // The pairs of the map with at least a and at most b pairs before them, in order.
  ghost predicate IsWindow(result: seq<KeyValue>, score: map<string, Score>, a: nat, b: nat) {
    && |result| == (if a <= b < |score| then b + 1 - a else if a < |score| <= b then |score| - a else 0)
    && InOrder(result)
    && forall i :: 0 <= i < |result| ==> result[i] in Pairs(score) && |Smaller(score, result[i])| == a + i
  }

  lemma WindowIsOrdered(s: seq<KeyValue>, score: map<string, Score>, a: nat, b: nat)
    requires Ascending(Compare, s) && Agrees(s, score) && |s| == |score|
    ensures IsWindow(Window(s, a, b), score, a, b)
  {
    hide Compare;
    hide Before;
    hide Agrees;
    var result := Window(s, a, b);
    AscendingInOrder(s);
    assert forall i :: 0 <= i < |result| ==> result[i] == s[a + i];
    forall i | 0 <= i < |result| ensures result[i] in Pairs(score) && |Smaller(score, result[i])| == a + i {
      PositionIsRank(s, score, a + i);
    }
  }

  // Go's > on float64.
  predicate Exceeds(a: Score, b: Score) { a != NaN && b != NaN && !AtMostScore(a, b) }

  predicate Between(kv: KeyValue, start: Score, end: Score) {
    AtMostScore(start, kv.value) && AtMostScore(kv.value, end)
  }

  ghost function AllBetween(s: seq<KeyValue>, start: Score, end: Score): seq<KeyValue> {
    if s == [] then []
    else (if Between(s[0], start, end) then [s[0]] else []) + AllBetween(s[1..], start, end)
  }

  // The longest prefix whose scores do not exceed end.
  ghost function UpTo(s: seq<KeyValue>, end: Score): (r: seq<KeyValue>)
    ensures r <= s
  {
    if s == [] || !AtMostScore(s[0].value, end) then [] else [s[0]] + UpTo(s[1..], end)
  }

  lemma UpToStep(s: seq<KeyValue>, i: nat, end: Score)
    requires i <= |s|
    ensures UpTo(s[i..], end) == if i < |s| && AtMostScore(s[i].value, end) then [s[i]] + UpTo(s[i + 1..], end) else []
  {
    if i < |s| {
      assert s[i..][1..] == s[i + 1..];
    }
  }

  // The walk of a range by score, from position at to position i: the result and what is still to come.
  ghost predicate Walking(s: seq<KeyValue>, at: nat, i: nat, end: Score, result: seq<KeyValue>) {
    at <= i <= |s| && UpTo(s[at..], end) == result + UpTo(s[i..], end)
  }

  lemma WalkingStart(s: seq<KeyValue>, at: nat, end: Score)
    requires at <= |s|
    ensures Walking(s, at, at, end, [])
  {
  }

  lemma WalkingStep(s: seq<KeyValue>, at: nat, i: nat, end: Score, result: seq<KeyValue>)
    requires Walking(s, at, i, end, result)
    ensures i < |s| && AtMostScore(s[i].value, end) ==> Walking(s, at, i + 1, end, result + [s[i]])
    ensures i == |s| || !AtMostScore(s[i].value, end) ==> UpTo(s[at..], end) == result
  {
    hide UpTo;
    hide AtMostScore;
    UpToStep(s, i, end);
    if i < |s| {
      Associates(result, [s[i]], UpTo(s[i + 1..], end));
    }
  }

  // The pairs of the map whose score is not below start and not above end; none when NaN is involved.
  ghost function MembersBetween(score: map<string, Score>, start: Score, end: Score): set<KeyValue> {
    set kv | kv in Pairs(score) && NaN !in [start, kv.value, end]
      && !ScoreBefore(kv.value, start) && !ScoreBefore(end, kv.value)
  }

  // What a range by score collects: from NaN on it begins with the first of all members, and ends at once if
  // that one has NaN.
  ghost function Collected(score: map<string, Score>, start: Score, end: Score): set<KeyValue> {
    if start != NaN then MembersBetween(score, start, end)
    else if exists k :: k in score && score[k] == NaN then {}
    else MembersBetween(score, MinusInf, end)
  }

  // Each element comes before all behind it: smaller score, or same score and smaller key.
  ghost predicate InOrder(s: seq<KeyValue>) {
    forall i, j :: 0 <= i < j < |s| ==> Before(s[i], s[j])
  }

  lemma AscendingInOrder(s: seq<KeyValue>)
    ensures Ascending(Compare, s) <==> InOrder(s)
  {
    hide Compare;
    hide Before;
    forall i, j | 0 <= i < j < |s| ensures Compare(s[i], s[j]) < 0 <==> Before(s[i], s[j]) {
      CompareIsBefore(s[i], s[j]);
    }
  }

  // The pairs of the map that come before a pair.
  ghost function Smaller(score: map<string, Score>, kv: KeyValue): set<KeyValue> {
    set other | other in Pairs(score) && Before(other, kv)
  }

  lemma CountSmaller(s: seq<KeyValue>, score: map<string, Score>, kv: KeyValue)
    requires Ascending(Compare, s) && Agrees(s, score)
    ensures CountBelow(Compare, s, kv) == |Smaller(score, kv)|
  {
    hide Compare;
    hide Before;
    hide Ascending;
    CompareIsPreorder();
    CountIsCardinality(Compare, s, kv);
    forall other ensures other in BelowSet(Compare, s, kv) <==> other in Smaller(score, kv) {
      assert other in s <==> other in Elems(s);
      CompareIsBefore(other, kv);
    }
    assert BelowSet(Compare, s, kv) == Smaller(score, kv);
  }

  // At each position stands the pair of the map that has as many pairs before it.
  lemma PositionIsRank(s: seq<KeyValue>, score: map<string, Score>, i: nat)
    requires Ascending(Compare, s) && Agrees(s, score) && i < |s|
    ensures s[i] in Pairs(score) && |Smaller(score, s[i])| == i
  {
    hide Compare;
    hide Before;
    hide Ascending;
    CompareIsPreorder();
    CountSmaller(s, score, s[i]);
    RankInverse(Compare, s, i, s[i]);
    assert s[i] in Elems(s);
  }

  // The stretch of the list between two scores: those members, in order.
  lemma StretchIsRange(s: seq<KeyValue>, score: map<string, Score>, start: Score, end: Score)
    requires Ascending(Compare, s) && Agrees(s, score)
    ensures Elems(AllBetween(s, start, end)) == MembersBetween(score, start, end)
    ensures InOrder(AllBetween(s, start, end))
  {
    hide Compare;
    hide AtMostScore;
    hide ScoreBefore;
    hide Before;
    hide AllBetween;
    hide Ascending;
    hide InOrder;
    AllBetweenElems(s, start, end);
    assert Elems(s) == Pairs(score);
    forall kv ensures kv in AllBetween(s, start, end) <==> kv in MembersBetween(score, start, end) {
      AtMostIsNotAfter(start, kv.value);
      AtMostIsNotAfter(kv.value, end);
      assert kv in s <==> kv in Elems(s);
    }
    AllBetweenAscending(s, start, end);
    AscendingInOrder(AllBetween(s, start, end));
  }

  lemma AscendingCons(x: KeyValue, rest: seq<KeyValue>)
    requires Ascending(Compare, rest) && forall j :: 0 <= j < |rest| ==> Compare(x, rest[j]) < 0
    ensures Ascending(Compare, [x] + rest)
  {
    hide Compare;
  }

  lemma {:induction false} AllBetweenAscending(s: seq<KeyValue>, start: Score, end: Score)
    requires Ascending(Compare, s)
    ensures Ascending(Compare, AllBetween(s, start, end))
  {
    if s != [] {
      hide Compare;
      hide AtMostScore;
      AllBetweenAscending(s[1..], start, end);
      AllBetweenElems(s[1..], start, end);
      var rest := AllBetween(s[1..], start, end);
      forall j | 0 <= j < |rest| ensures Compare(s[0], rest[j]) < 0 {
        assert rest[j] in s[1..];
        var i :| 0 <= i < |s[1..]| && s[1..][i] == rest[j];
        assert s[i + 1] == rest[j];
      }
      AscendingCons(s[0], rest);
    }
  }

  lemma {:induction false} AllBetweenElems(s: seq<KeyValue>, start: Score, end: Score)
    ensures forall kv :: kv in AllBetween(s, start, end) <==> kv in s && Between(kv, start, end)
  {
    if s != [] {
      AllBetweenElems(s[1..], start, end);
      assert forall kv :: kv in s <==> kv == s[0] || kv in s[1..];
    }
  }

  // In an ascending list the scores in a range stand side by side, from the lower bound of its start.
  lemma {:induction false} RangeIsContiguous(s: seq<KeyValue>, start: Score, end: Score)
    requires Ascending(Compare, s) && start != NaN
    ensures AllBetween(s, start, end) == UpTo(s[CountBelow(Compare, s, KeyValue("", start))..], end)
  {
    if s != [] {
      hide Compare;
      var least := KeyValue("", start);
      CompareToLeast(s[0], start);
      RangeIsContiguous(s[1..], start, end);
      if Compare(s[0], least) < 0 {
        var n := CountBelow(Compare, s[1..], least);
        assert s[1..][n..] == s[n + 1..];
      } else {
        NoneBelow(s, least);
        if !AtMostScore(s[0].value, end) {
          NothingAfter(s, start, end);
        }
        assert CountBelow(Compare, s[1..], least) == 0;
        assert s[0..] == s && s[1..][0..] == s[1..];
      }
    }
  }

  lemma NoneBelow(s: seq<KeyValue>, v: KeyValue)
    requires Ascending(Compare, s) && s != [] && Compare(s[0], v) >= 0
    ensures CountBelow(Compare, s, v) == 0
  {
    hide Compare;
    CompareIsPreorder();
    var lo, hi := CutExists(Compare, s, v);
  }

  lemma {:induction false} NothingAfter(s: seq<KeyValue>, start: Score, end: Score)
    requires Ascending(Compare, s) && s != [] && s[0].value != NaN && !AtMostScore(s[0].value, end)
    ensures AllBetween(s, start, end) == []
  {
    if |s| > 1 {
      assert Compare(s[0], s[1]) < 0;
      NothingAfter(s[1..], start, end);
    }
  }

  lemma {:induction false} NothingBelowNaN(s: seq<KeyValue>)
    ensures CountBelow(Compare, s, KeyValue("", NaN)) == 0
  {
    if s != [] {
      NothingBelowNaN(s[1..]);
    }
  }

  lemma {:induction false} NothingBetween(s: seq<KeyValue>, start: Score, end: Score)
    requires Exceeds(start, end)
    ensures AllBetween(s, start, end) == []
  {
    if s != [] {
      NothingBetween(s[1..], start, end);
    }
  }

  // From the first element on.
  lemma FromTheFirst(s: seq<KeyValue>, score: map<string, Score>, end: Score)
    requires Ascending(Compare, s) && Agrees(s, score)
    ensures Elems(UpTo(s, end)) == Collected(score, NaN, end)
    ensures InOrder(UpTo(s, end))
  {
    hide Compare;
    hide Before;
    hide Agrees;
    hide AtMostScore;
    NaNComesFirst(s, score);
    if s != [] && s[0].value != NaN {
      RangeIsContiguous(s, MinusInf, end);
      StretchIsRange(s, score, MinusInf, end);
      NoneBelowNumbers(s);
      assert s[0..] == s;
    } else if s == [] {
      EmptyAgrees(s, score);
    } else {
      assert UpTo(s, end) == [] by { AtMostIsNotAfter(s[0].value, end); }
    }
  }

  lemma NoneBelowNumbers(s: seq<KeyValue>)
    requires Ascending(Compare, s) && s != [] && s[0].value != NaN
    ensures CountBelow(Compare, s, KeyValue("", MinusInf)) == 0
  {
    CompareToLeast(s[0], MinusInf);
    hide Compare;
    NoneBelow(s, KeyValue("", MinusInf));
  }

  lemma EmptyAgrees(s: seq<KeyValue>, score: map<string, Score>)
    requires Agrees(s, score) && s == []
    ensures score == map[]
  {
    PairsSize(score);
    assert Elems(s) == {};
  }

  lemma NaNComesFirst(s: seq<KeyValue>, score: map<string, Score>)
    requires Ascending(Compare, s) && Agrees(s, score)
    ensures (exists k :: k in score && score[k] == NaN) <==> s != [] && s[0].value == NaN
  {
    if s != [] {
      assert s[0] in Elems(s);
    }
    if k :| k in score && score[k] == NaN {
      assert KeyValue(k, NaN) in Elems(s);
      var i :| 0 <= i < |s| && s[i] == KeyValue(k, NaN);
      assert i > 0 ==> Compare(s[0], s[i]) < 0;
    }
  }

  // What a range by score collects from the lower bound of its start on.
  lemma FromLowerBound(s: seq<KeyValue>, score: map<string, Score>, start: Score, end: Score)
    requires Ascending(Compare, s) && Agrees(s, score)
    ensures
      var at := CountBelow(Compare, s, KeyValue("", start));
      && at <= |s| && (at == |s| ==> UpTo(s[at..], end) == [])
      && (Exceeds(start, end) ==> UpTo(s[at..], end) == [])
      && Elems(UpTo(s[at..], end)) == Collected(score, start, end)
      && InOrder(UpTo(s[at..], end))
  {
    if start == NaN {
      NothingBelowNaN(s);
      assert s[0..] == s;
      FromTheFirst(s, score, end);
    } else {
      RangeIsContiguous(s, start, end);
      StretchIsRange(s, score, start, end);
      if Exceeds(start, end) {
        NothingBetween(s, start, end);
      }
    }
  }

  class SortedSet {
    const skipList: SkipList<KeyValue>
    var score: map<string, Score>

    ghost predicate Valid()
      reads this, skipList, skipList.repr
    {
      skipList.Valid() && skipList.comparator == Compare && Agrees(skipList.Values(), score)
    }

    constructor ()
      ensures Valid() && score == map[] && fresh(skipList) && fresh(skipList.repr)
    {
      CompareIsPreorder();
      skipList := new SkipList(Compare, KeyValue("", Finite(0.0)));
      score := map[];
    }

    // levels are the outcomes of randomLevel.
    method Add(arg: seq<KeyValue>, levels: seq<int>) returns (count: int)
      requires Valid() && ClashFree(score, arg)
      requires |levels| == |arg| && forall i :: 0 <= i < |levels| ==> 0 <= levels[i] <= CAP
      modifies this, skipList, skipList.repr
      ensures Valid() && fresh(skipList.repr - old(skipList.repr))
      ensures score == AddedMap(old(score), arg)
      ensures count == |score| - |old(score)|
    {
      count := 0;
      for i := 0 to |arg|
        invariant Valid() && fresh(skipList.repr - old(skipList.repr))
        invariant ClashFree(score, arg[i..])
        invariant AddedMap(score, arg[i..]) == AddedMap(old(score), arg)
        invariant count == |score| - |old(score)|
      {
        var isNew := AddOne(arg[i], levels[i]);
        if isNew {
          count := count + 1;
        }
        assert arg[i..][1..] == arg[i + 1..];
      }
      assert arg[|arg|..] == [];
    }

    // The loop body of Add.  It may spoil the agreement, exactly by a second NaN.
    method AddOne(kv: KeyValue, level: int) returns (isNew: bool)
      requires Valid() && 0 <= level <= CAP
      modifies this, skipList, skipList.repr
      ensures Valid() <==> !Clashes(old(score), kv)
      ensures skipList.Valid() && skipList.Values() == AddedValues(old(skipList.Values()), old(score), kv)
      ensures fresh(skipList.repr - old(skipList.repr))
      ensures score == old(score)[kv.key := kv.value]
      ensures isNew <==> kv.key !in old(score)
    {
      hide SkipList.Valid;
      hide Compare;
      hide Ascending;
      hide Inserted;
      hide Deleted;
      skipList.Ascends();
      AddedAgrees(skipList.Values(), score, kv);
      isNew := kv.key !in score;
      if !isNew {
        DeletePossible(skipList.Values(), score, kv.key);
        skipList.Delete(KeyValue(kv.key, score[kv.key]));
      }
      skipList.InsertAtLevel(kv, level);
      score := score[kv.key := kv.value];
    }

    method GetRank(key: string) returns (rank: int)
      requires Valid()
      ensures key !in score ==> rank == -1
      ensures key in score ==> rank == |Smaller(score, KeyValue(key, score[key]))|
    {
      if key !in score {
        return -1;
      }
      ghost var kv := KeyValue(key, score[key]);
      skipList.Ascends();
      DeletePossible(skipList.Values(), score, key);
      CountSmaller(skipList.Values(), score, kv);
      var r, _ := skipList.GetRank(KeyValue(key, score[key]));
      return r - 1;
    }

    method GetRange(start: int, end: int) returns (result: seq<KeyValue>)
      requires Valid()
      ensures result == Window(skipList.Values(), Clamped(|score|, start), Clamped(|score|, end))
      ensures IsWindow(result, score, Clamped(|score|, start), Clamped(|score|, end))
    {
      hide SkipList.Valid;
      hide Agrees;
      hide Compare;
      hide Ascending;
      hide IsWindow;
      SizeAgrees();
      skipList.Ascends();
      WindowIsOrdered(skipList.Values(), score, Clamped(|score|, start), Clamped(|score|, end));
      var n := skipList.Len();
      var a, b := start, end;
      if a >= n {
        return [];
      }
      if b >= n {
        b := n - 1;
      }
      if a < 0 {
        a := if a + n > 0 then a + n else 0;
      }
      if b < 0 {
        b := if b + n > 0 then b + n else 0;
      }
      if a > b {
        return [];
      }
      result := CollectRange(a, b);
    }

    // The walk along level 0 from position a to position b.
    method CollectRange(a: int, b: int) returns (result: seq<KeyValue>)
      requires Valid() && 0 <= a <= b && (b < |skipList.Values()| || skipList.Values() == [])
      ensures result == Window(skipList.Values(), a, b)
    {
      hide SkipList.Valid;
      hide Agrees;
      hide Compare;
      ghost var values := skipList.Values();
      var node, ok := skipList.SearchByRank(a + 1);
      if !ok {
        return [];
      }
      var len := b - a + 1;
      result := seq(len, _ => KeyValue("", Finite(0.0)));
      var i := 0;
      while i < len && node != null
        invariant 0 <= i <= len && |result| == len && node == skipList.At(a + 1 + i)
        invariant result[..i] == values[a..a + i]
      {
        skipList.NextAtZero(a + 1 + i);
        FillNext(values, result, a, i);
        result := result[i := node.val];
        node := node.GetNextNodeAtLevel(0);
        i := i + 1;
      }
      skipList.NextAtZero(a + i);
    }

    method GetRangeByValue(start: Score, end: Score) returns (result: seq<KeyValue>)
      requires Valid()
      ensures Elems(result) == Collected(score, start, end) && InOrder(result)
    {
      hide SkipList.Valid;
      hide Agrees;
      hide Compare;
      ghost var at := CountBelow(Compare, skipList.Values(), KeyValue("", start));
      skipList.Ascends();
      FromLowerBound(skipList.Values(), score, start, end);
      hide UpTo;
      hide CountBelow;
      hide Ascending;
      hide MembersBetween;
      hide InOrder;
      if Exceeds(start, end) {
        return [];
      }
      var node, ok := skipList.GetLowerBound(KeyValue("", start));
      if !ok {
        return [];
      }
      result := CollectUpTo(node, at, end);
    }

    // The walk along level 0 from the element at index `at`.
    method CollectUpTo(from: SkipNode?<KeyValue>, ghost at: nat, end: Score) returns (result: seq<KeyValue>)
      requires Valid() && at <= |skipList.Values()| && from == skipList.At(at + 1)
      ensures result == UpTo(skipList.Values()[at..], end)
    {
      hide SkipList.Valid;
      hide Agrees;
      hide Compare;
      hide UpTo;
      hide AtMostScore;
      hide SkipList.At;
      hide Walking;
      ghost var values := skipList.Values();
      var node := from;
      ghost var i := at;
      result := [];
      WalkingStart(values, at, end);
      while node != null && AtMostScore(node.val.value, end)
        invariant at <= i <= |values| && node == skipList.At(i + 1)
        invariant Walking(values, at, i, end, result)
        decreases |values| - i
      {
        skipList.StepAtZero(i);
        WalkingStep(values, at, i, end, result);
        result := result + [node.val];
        node := node.GetNextNodeAtLevel(0);
        i := i + 1;
      }
      skipList.StepAtZero(i);
      WalkingStep(values, at, i, end, result);
    }

    method GetCardinality() returns (n: int)
      requires Valid()
      ensures n == |score|
    {
      SizeAgrees();
      n := skipList.Len();
    }

    method Remove(keys: seq<string>) returns (count: int)
      requires Valid()
      modifies this, skipList, skipList.repr
      ensures Valid() && skipList.repr == old(skipList.repr)
      ensures score == old(score) - Elems(keys)
      ensures count == |old(score)| - |score|
    {
      hide Valid;
      hide Elems;
      count := 0;
      NoElems(keys);
      for i := 0 to |keys|
        invariant Valid() && skipList.repr == old(skipList.repr)
        invariant score == old(score) - Elems(keys[..i])
        invariant count == |old(score)| - |score|
      {
        ElemsNext(keys, i);
        assert old(score) - Elems(keys[..i + 1]) == score - {keys[i]};
        if keys[i] !in score {
          continue;
        }
        RemoveOne(keys[i]);
        count := count + 1;
      }
      assert keys[..|keys|] == keys;
    }

    // The loop body of Remove.
    method RemoveOne(key: string)
      requires Valid() && key in score
      modifies this, skipList, skipList.repr
      ensures Valid() && skipList.repr == old(skipList.repr)
      ensures score == old(score) - {key} && |score| == |old(score)| - 1
    {
      hide SkipList.Valid;
      hide Compare;
      hide Ascending;
      hide Deleted;
      skipList.Ascends();
      DeletedAgrees(skipList.Values(), score, key);
      DeletePossible(skipList.Values(), score, key);
      hide Agrees;
      hide CountBelow;
      hide Holds;
      OneLess(score, key);
      skipList.Delete(KeyValue(key, score[key]));
      score := score - {key};
    }

    lemma SizeAgrees()
      requires Valid()
      ensures |skipList.Values()| == |score|
    {
      hide SkipList.Valid;
      hide Compare;
      CompareIsPreorder();
      skipList.Ascends();
      ElemsSize(Compare, skipList.Values());
      PairsSize(score);
    }
  }

  lemma FillNext<T>(s: seq<T>, r: seq<T>, a: nat, i: nat)
    requires i < |r| && a + i < |s| && r[..i] == s[a..a + i]
    ensures r[i := s[a + i]][..i + 1] == s[a..a + i + 1]
  {
    var next := r[i := s[a + i]];
    assert next[..i + 1] == r[..i] + [s[a + i]];
    assert s[a..a + i + 1] == s[a..a + i] + [s[a + i]];
  }

  lemma NoElems<T>(s: seq<T>)
    ensures Elems(s[..0]) == {}
  {
  }

  lemma ElemsNext<T>(s: seq<T>, i: nat)
    requires i < |s|
    ensures Elems(s[..i + 1]) == Elems(s[..i]) + {s[i]}
  {
    assert s[..i + 1] == s[..i] + [s[i]];
  }

  // What the list holds depends on the map alone, not on the levels drawn or the order of arrival.
  lemma SameMapSameList(a: SortedSet, b: SortedSet)
    requires a.Valid() && b.Valid() && a.score == b.score
    ensures a.skipList.Values() == b.skipList.Values()
  {
    hide SkipList.Valid;
    hide Compare;
    CompareIsPreorder();
    a.skipList.Ascends();
    b.skipList.Ascends();
    AscendingUnique(Compare, a.skipList.Values(), b.skipList.Values());
  }

  // Batches without NaN never clash.
  lemma {:induction false} NumbersNeverClash(score: map<string, Score>, arg: seq<KeyValue>)
    requires forall i :: 0 <= i < |arg| ==> arg[i].value != NaN
    ensures ClashFree(score, arg)
    decreases |arg|
  {
    if arg != [] {
      NumbersNeverClash(score[arg[0].key := arg[0].value], arg[1..]);
    }
  }
}
