/** The stream as a sequence of entries: its order, its index and its range scans
    (internal/datastructure/stream.go:111-185). */
module StreamLogs {
  import opened Bytes
  import opened StreamIDs
  import opened EntryCodec

  ghost predicate Increasing(es: seq<Entry>) {
    forall i, j :: 0 <= i < j < |es| ==> Rank(es[i].id) < Rank(es[j].id)
  }

  // The position of the first entry whose ID is not below id; |es| when there is none.
  ghost function FirstFrom(es: seq<Entry>, id: StreamID): (n: nat)
    ensures n <= |es|
  {
    if es == [] || Rank(es[0].id) >= Rank(id) then 0 else 1 + FirstFrom(es[1..], id)
  }

  lemma {:induction false} FirstFromCuts(es: seq<Entry>, id: StreamID)
    requires Increasing(es)
    ensures forall k :: 0 <= k < |es| ==> (Rank(es[k].id) < Rank(id) <==> k < FirstFrom(es, id))
  {
    if es != [] {
      FirstFromCuts(es[1..], id);
      forall k | 0 <= k < |es| ensures Rank(es[k].id) < Rank(id) <==> k < FirstFrom(es, id) {
        if k > 0 {
          assert es[1..][k - 1] == es[k];
        }
      }
    }
  }

  // ---- the index: an ordered map from 16-byte keys to positions ----

  datatype Item = Item(key: seq<Byte>, pos: int)

  function Insert(items: seq<Item>, key: seq<Byte>, pos: int): seq<Item> {
    if items == [] then [Item(key, pos)]
    else if items[0].key == key then [Item(key, pos)] + items[1..]
    else if Before(items[0].key, key) then [items[0]] + Insert(items[1..], key, pos)
    else [Item(key, pos)] + items
  }

  // SeekLowerBound followed by Next: the first item whose key is not below the argument.
  function SeekLowerBound(items: seq<Item>, key: seq<Byte>): Option<Item> {
    if items == [] then None
    else if Before(items[0].key, key) then SeekLowerBound(items[1..], key)
    else Some(items[0])
  }

  // The index of a list of entries, the first of which lies at position from.
  ghost function IndexOf(es: seq<Entry>, from: int): (items: seq<Item>)
    ensures |items| == |es|
  {
    if es == [] then [] else [Item(es[0].id.EncodeToBytes(), from)] + IndexOf(es[1..], from + 1)
  }

  lemma {:induction false} InsertAppends(es: seq<Entry>, from: int, e: Entry)
    requires forall i :: 0 <= i < |es| ==> Rank(es[i].id) < Rank(e.id)
    ensures Insert(IndexOf(es, from), e.id.EncodeToBytes(), from + |es|) == IndexOf(es + [e], from)
  {
    if es == [] {
      assert (es + [e])[1..] == [];
    } else {
      KeyOrder(es[0].id, e.id);
      RankOrder(es[0].id, e.id);
      InsertAppends(es[1..], from + 1, e);
      assert (es + [e])[1..] == es[1..] + [e];
      assert IndexOf(es, from)[1..] == IndexOf(es[1..], from + 1);
    }
  }

  lemma {:induction false} SeekNext(items: seq<Item>, key: seq<Byte>)
    requires items != []
    ensures SeekLowerBound(items, key)
         == if Before(items[0].key, key) then SeekLowerBound(items[1..], key) else Some(items[0])
  {
  }

  lemma {:induction false} IndexNext(es: seq<Entry>, from: int)
    requires es != []
    ensures IndexOf(es, from)[0] == Item(es[0].id.EncodeToBytes(), from)
    ensures IndexOf(es, from)[1..] == IndexOf(es[1..], from + 1)
  {
  }

  lemma {:induction false} SeekFinds(es: seq<Entry>, from: int, id: StreamID)
    ensures SeekLowerBound(IndexOf(es, from), id.EncodeToBytes())
         == if FirstFrom(es, id) < |es|
            then Some(Item(es[FirstFrom(es, id)].id.EncodeToBytes(), from + FirstFrom(es, id)))
            else None
  {
    hide StreamID.EncodeToBytes;
    hide StreamID.Compare;
    hide Before;
    hide Rank;
    hide IndexOf;
    if es != [] {
      hide SeekLowerBound;
      KeyOrder(es[0].id, id);
      RankOrder(es[0].id, id);
      SeekFinds(es[1..], from + 1, id);
      IndexNext(es, from);
      SeekNext(IndexOf(es, from), id.EncodeToBytes());
    }
  }

  // ---- range scans ----

  // The position at which a scan ends, |es| when there is none.
  ghost function LastTo(es: seq<Entry>, end: StreamID): (hi: int)
    ensures hi <= |es|
  {
    if end == MAX_ID then |es| - 1 else FirstFrom(es, end)
  }

  // What RangeScan returns.  It makes a slice for the entries from one position to the other, which panics
  // when that capacity is negative.
  ghost function Scanned(es: seq<Entry>, start: StreamID, end: StreamID): Result<seq<Entry>> {
    var lo, hi := FirstFrom(es, start), LastTo(es, end);
    if lo == |es| then Ok([])
    else if hi == |es| then Err("end not found")
    else if hi - lo + 1 < 0 then Err(PANIC)
    else Ok(es[lo..hi + 1])
  }

  // The entries whose ranks lie between two numbers.
  ghost function WithRanks(es: seq<Entry>, lo: int, hi: int): seq<Entry> {
    if es == [] then []
    else (if lo <= Rank(es[0].id) <= hi then [es[0]] else []) + WithRanks(es[1..], lo, hi)
  }

  // What a range should contain.
  ghost function InRange(es: seq<Entry>, start: StreamID, end: StreamID): seq<Entry> {
    WithRanks(es, Rank(start), Rank(end))
  }

  lemma {:induction false} RankMembers(es: seq<Entry>, lo: int, hi: int)
    ensures forall e :: e in WithRanks(es, lo, hi) <==> e in es && lo <= Rank(e.id) <= hi
  {
    if es != [] {
      RankMembers(es[1..], lo, hi);
      assert forall e :: e in es <==> e == es[0] || e in es[1..];
    }
  }

  lemma {:induction false} RankConcat(a: seq<Entry>, b: seq<Entry>, lo: int, hi: int)
    ensures WithRanks(a + b, lo, hi) == WithRanks(a, lo, hi) + WithRanks(b, lo, hi)
  {
    if a == [] {
      assert a + b == b;
    } else {
      assert (a + b)[1..] == a[1..] + b;
      RankConcat(a[1..], b, lo, hi);
    }
  }

  lemma {:induction false} RankNone(es: seq<Entry>, lo: int, hi: int)
    requires forall i :: 0 <= i < |es| ==> !(lo <= Rank(es[i].id) <= hi)
    ensures WithRanks(es, lo, hi) == []
  {
    if es != [] {
      RankNone(es[1..], lo, hi);
    }
  }

  lemma {:induction false} RankAll(es: seq<Entry>, lo: int, hi: int)
    requires forall i :: 0 <= i < |es| ==> lo <= Rank(es[i].id) <= hi
    ensures WithRanks(es, lo, hi) == es
  {
    if es != [] {
      RankAll(es[1..], lo, hi);
    }
  }

  // When the entries with these ranks are the ones between two positions, they are that slice.
  lemma {:induction false} RankSlice(es: seq<Entry>, a: int, b: int, lo: nat, hi: nat)
    requires lo <= hi <= |es|
    requires forall i :: 0 <= i < |es| ==> (a <= Rank(es[i].id) <= b <==> lo <= i < hi)
    ensures WithRanks(es, a, b) == es[lo..hi]
  {
    hide WithRanks;
    hide Rank;
    var x, m, z := es[..lo], es[lo..hi], es[hi..];
    assert es == x + (m + z);
    RankConcat(x, m + z, a, b);
    RankConcat(m, z, a, b);
    RankNone(x, a, b);
    RankNone(z, a, b);
    RankAll(m, a, b);
  }

  ghost predicate HasID(es: seq<Entry>, id: StreamID) { exists i :: 0 <= i < |es| && es[i].id == id }

  // The guard under which a scan is right: the start lies beyond everything, or the end is open, or the start
  // is one position behind the end, or not behind it and the end is itself in the log.
  ghost predicate ScanGuard(es: seq<Entry>, start: StreamID, end: StreamID) {
    var lo, hi := FirstFrom(es, start), FirstFrom(es, end);
    lo == |es| || end == MAX_ID || lo == hi + 1 || (lo <= hi && HasID(es, end))
  }

  lemma ScanIsRange(es: seq<Entry>, start: StreamID, end: StreamID)
    requires Increasing(es)
    ensures Scanned(es, start, end) == Ok(InRange(es, start, end)) <==> ScanGuard(es, start, end)
  {
    FirstFromCuts(es, start);
    FirstFromCuts(es, end);
    var lo, hi := FirstFrom(es, start), FirstFrom(es, end);
    if lo == |es| {
      RankSlice(es, Rank(start), Rank(end), |es|, |es|);
    } else if end == MAX_ID {
      forall i | 0 <= i < |es| ensures Rank(es[i].id) <= Rank(end) {
        MaxIsLargest(es[i].id);
      }
      RankSlice(es, Rank(start), Rank(end), lo, |es|);
    } else if hi + 1 == lo {
      NothingBetween(es, start, end);
    } else if lo <= hi < |es| {
      RankOrder(es[hi].id, end);
      if es[hi].id == end {
        RankSlice(es, Rank(start), Rank(end), lo, hi + 1);
      } else {
        assert es[lo..hi + 1][hi - lo] == es[hi];
        RankMembers(es, Rank(start), Rank(end));
        assert es[hi] in es[lo..hi + 1];
        NotInLog(es, end, hi);
      }
    } else if hi == |es| {
      NotInLog(es, end, hi);
    }
  }

  lemma NothingBetween(es: seq<Entry>, start: StreamID, end: StreamID)
    requires Increasing(es) && FirstFrom(es, end) < FirstFrom(es, start)
    ensures InRange(es, start, end) == []
  {
    FirstFromCuts(es, start);
    FirstFromCuts(es, end);
    var lo, hi := FirstFrom(es, start), FirstFrom(es, end);
    forall i | lo <= i < |es| ensures Rank(end) < Rank(es[i].id) {
      assert Rank(end) <= Rank(es[hi].id) < Rank(es[i].id);
    }
    RankSlice(es, Rank(start), Rank(end), lo, lo);
  }

  // A scan fails altogether exactly when the start lies two or more positions behind an end that is found.
  lemma ScanPanics(es: seq<Entry>, start: StreamID, end: StreamID)
    requires Increasing(es)
    ensures Scanned(es, start, end) == Err(PANIC) <==> FirstFrom(es, end) + 1 < FirstFrom(es, start) < |es|
  {
    FirstFromCuts(es, start);
    if end == MAX_ID {
      FirstFromCuts(es, end);
      forall i | 0 <= i < FirstFrom(es, start) ensures Rank(es[i].id) < Rank(end) {
        MaxIsLargest(start);
      }
    }
  }

  lemma MaxIsLargest(id: StreamID)
    ensures Rank(id) <= Rank(MAX_ID)
  {
    assert id.ms <= TWO_64 - 1;
    assert (TWO_64 - 1 - id.ms) * TWO_64 >= 0;
  }

  lemma NotInLog(es: seq<Entry>, id: StreamID, hi: nat)
    requires Increasing(es) && hi == FirstFrom(es, id) && (hi < |es| ==> es[hi].id != id)
    ensures !HasID(es, id)
  {
    FirstFromCuts(es, id);
    forall i | 0 <= i < |es| ensures es[i].id != id {
      if i > hi {
        assert Rank(es[hi].id) < Rank(es[i].id);
      }
    }
  }

  // A scan that goes wrong: the end lies between two entries, and the one above it is returned too.
  lemma ScanOvershoots()
    ensures
      var es := [Entry(StreamID(1, 0), map[]), Entry(StreamID(5, 0), map[])];
      && Increasing(es)
      && Scanned(es, StreamID(1, 0), StreamID(3, 0)) == Ok(es)
      && InRange(es, StreamID(1, 0), StreamID(3, 0)) == [es[0]]
  {
    var es := [Entry(StreamID(1, 0), map[]), Entry(StreamID(5, 0), map[])];
    assert Rank(StreamID(1, 0)) == TWO_64 && Rank(StreamID(3, 0)) == 3 * TWO_64 && Rank(StreamID(5, 0)) == 5 * TWO_64;
    assert es[1..] == [es[1]] && es[1..][1..] == [];
    assert FirstFrom(es[1..], StreamID(3, 0)) == 0;
    assert es[0..2] == es;
    assert WithRanks(es[1..], TWO_64, 3 * TWO_64) == [];
  }

  // A scan that does not come back: the start is the third entry and the end the first.
  lemma ScanCrashes()
    ensures
      var a, b, c := Entry(StreamID(1, 0), map[]), Entry(StreamID(2, 0), map[]), Entry(StreamID(3, 0), map[]);
      && Increasing([a, b, c])
      && HasID([a, b, c], a.id)
      && Scanned([a, b, c], c.id, a.id) == Err(PANIC)
      && InRange([a, b, c], c.id, a.id) == []
  {
    var a, b, c := Entry(StreamID(1, 0), map[]), Entry(StreamID(2, 0), map[]), Entry(StreamID(3, 0), map[]);
    var es := [a, b, c];
    assert Rank(a.id) == TWO_64 && Rank(b.id) == 2 * TWO_64 && Rank(c.id) == 3 * TWO_64;
    assert es[0].id == a.id;
    assert es[1..] == [b, c] && es[1..][1..] == [c];
    assert FirstFrom(es, c.id) == 1 + FirstFrom(es[1..], c.id) == 2 + FirstFrom(es[1..][1..], c.id) == 2;
    NothingBetween(es, c.id, a.id);
  }
}
