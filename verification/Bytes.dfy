/** Byte strings and the integer encodings of Go's encoding/binary that the repository uses. */
module Bytes {

  type Byte = x: int | 0 <= x < 256

  const TWO_63: int := 0x8000_0000_0000_0000
  const TWO_64: int := 0x1_0000_0000_0000_0000

  datatype Result<+T> = Ok(value: T) | Err(message: string)

  // The message for a call that ends in a Go panic: it returns neither a value nor an error.
  const PANIC: string := "panic"

  // ---- unsigned varints ----

  function PutUvarint(x: nat): (b: seq<Byte>)
    ensures |b| > 0
  {
    if x < 128 then [x] else [x % 128 + 128] + PutUvarint(x / 128)
  }

  // The value and the number of bytes read.  Zero bytes: the buffer ends inside the varint.
  // A negative number: the value does not fit 64 bits.  i is the index of the next byte.
  function UvarintFrom(b: seq<Byte>, i: nat): (r: (int, int))
    ensures r.1 <= |b| && r.0 >= 0
    ensures r.1 <= 0 ==> r.0 == 0
    decreases |b|
  {
    if b == [] then (0, 0)
    else if i == 10 then (0, -(i + 1))
    else if b[0] < 128 then
      if i == 9 && b[0] > 1 then (0, -(i + 1)) else (b[0], 1)
    else
      var r := UvarintFrom(b[1..], i + 1);
      if r.1 <= 0 then r else (b[0] - 128 + 128 * r.0, r.1 + 1)
  }

  function Uvarint(b: seq<Byte>): (r: (int, int))
    ensures r.1 <= |b| && r.0 >= 0
  {
    UvarintFrom(b, 0)
  }

  // How large a value may still be when i bytes have been read.
  ghost function Room(i: nat): nat
    requires i <= 9
  {
    if i == 0 then TWO_64 else Room(i - 1) / 128
  }

  lemma RoomStep(i: nat)
    requires i < 9
    ensures Room(i) == 128 * Room(i + 1) && Room(9) == 2
  {
    assert Room(0) == 0x1_0000_0000_0000_0000;
    assert Room(1) == 0x200_0000_0000_0000;
    assert Room(2) == 0x4_0000_0000_0000;
    assert Room(3) == 0x800_0000_0000;
    assert Room(4) == 0x10_0000_0000;
    assert Room(5) == 0x2000_0000;
    assert Room(6) == 0x40_0000;
    assert Room(7) == 0x8000;
    assert Room(8) == 0x100;
    assert Room(9) == 2;
  }

  lemma {:induction false} UvarintRoundTripFrom(x: nat, rest: seq<Byte>, i: nat)
    requires i <= 9 && x < Room(i)
    ensures UvarintFrom(PutUvarint(x) + rest, i) == (x, |PutUvarint(x)|)
    decreases x
  {
    RoomStep(0);
    if x >= 128 {
      assert i < 9;
      RoomStep(i);
      UvarintRoundTripFrom(x / 128, rest, i + 1);
      assert (PutUvarint(x) + rest)[1..] == PutUvarint(x / 128) + rest;
    }
  }

  // Reading back what was written, whatever follows it.
  lemma UvarintRoundTrip(x: nat, rest: seq<Byte>)
    requires x < TWO_64
    ensures Uvarint(PutUvarint(x) + rest) == (x, |PutUvarint(x)|)
    ensures Uvarint(PutUvarint(x)) == (x, |PutUvarint(x)|)
  {
    UvarintRoundTripFrom(x, rest, 0);
    UvarintRoundTripFrom(x, [], 0);
    assert PutUvarint(x) + [] == PutUvarint(x);
  }

  // A complete varint is read the same way whatever follows it, and from its own bytes alone.
  lemma {:induction false} UvarintPrefixFrom(b: seq<Byte>, rest: seq<Byte>, i: nat)
    requires UvarintFrom(b, i).1 > 0
    ensures UvarintFrom(b + rest, i) == UvarintFrom(b, i)
    ensures UvarintFrom(b[..UvarintFrom(b, i).1], i) == UvarintFrom(b, i)
    decreases |b|
  {
    var n := UvarintFrom(b, i).1;
    if b[0] >= 128 {
      UvarintPrefixFrom(b[1..], rest, i + 1);
      assert (b + rest)[1..] == b[1..] + rest;
      assert b[..n][1..] == b[1..][..n - 1];
    }
  }

  lemma UvarintPrefix(b: seq<Byte>, rest: seq<Byte>)
    requires Uvarint(b).1 > 0
    ensures Uvarint(b + rest) == Uvarint(b)
    ensures Uvarint(b[..Uvarint(b).1]) == Uvarint(b)
  {
    UvarintPrefixFrom(b, rest, 0);
  }

  // A byte below 128 comes among the first ten, of which i have been read; if it is the tenth, it is 0 or 1.
  predicate Terminated(b: seq<Byte>, i: nat) {
    exists k: nat :: k < |b| && i + k <= 9 && EndsAt(b, k) && (i + k == 9 ==> b[k] <= 1)
  }

  // b[k] is the first byte below 128.
  predicate EndsAt(b: seq<Byte>, k: nat)
    requires k < |b|
  {
    b[k] < 128 && forall j :: 0 <= j < k ==> b[j] >= 128
  }

  lemma TerminatedFirst(b: seq<Byte>, i: nat)
    requires b != [] && b[0] < 128
    ensures Terminated(b, i) <==> i < 9 || (i == 9 && b[0] <= 1)
  {
    assert EndsAt(b, 0);
  }

  lemma TerminatedNext(b: seq<Byte>, i: nat)
    requires b != [] && b[0] >= 128
    ensures Terminated(b, i) <==> Terminated(b[1..], i + 1)
  {
    if Terminated(b, i) {
      var k: nat :| k < |b| && i + k <= 9 && EndsAt(b, k) && (i + k == 9 ==> b[k] <= 1);
      assert EndsAt(b[1..], k - 1);
    }
    if Terminated(b[1..], i + 1) {
      var k: nat :| k < |b[1..]| && i + 1 + k <= 9 && EndsAt(b[1..], k) && (i + 1 + k == 9 ==> b[1..][k] <= 1);
      assert EndsAt(b, k + 1);
    }
  }

  lemma NotTerminated(b: seq<Byte>, i: nat)
    requires b == [] || i > 9
    ensures !Terminated(b, i)
  {
  }

  lemma {:induction false} ReadsWhen(b: seq<Byte>, i: nat)
    requires i <= 10
    ensures UvarintFrom(b, i).1 > 0 <==> Terminated(b, i)
    decreases |b|
  {
    hide Terminated;
    if b == [] || i == 10 {
      NotTerminated(b, i);
    } else if b[0] < 128 {
      TerminatedFirst(b, i);
    } else {
      TerminatedNext(b, i);
      ReadsWhen(b[1..], i + 1);
    }
  }

  // ---- signed varints (zigzag) ----

  function PutVarint(v: int): seq<Byte>
  {
    PutUvarint(if v >= 0 then 2 * v else -2 * v - 1)
  }

  function Varint(b: seq<Byte>): (r: (int, int)) {
    var u := Uvarint(b);
    (if u.0 % 2 == 0 then u.0 / 2 else -(u.0 / 2) - 1, u.1)
  }

  lemma VarintRoundTrip(v: int, rest: seq<Byte>)
    requires -TWO_63 <= v < TWO_63
    ensures Varint(PutVarint(v) + rest) == (v, |PutVarint(v)|)
  {
    UvarintRoundTrip(if v >= 0 then 2 * v else -2 * v - 1, rest);
  }

  // ---- fixed width ----

  function PutBig(x: nat, n: nat): (b: seq<Byte>)
    ensures |b| == n
  {
    if n == 0 then [] else PutBig(x / 256, n - 1) + [x % 256]
  }

  function Big(b: seq<Byte>): (x: nat) {
    if b == [] then 0 else Big(b[..|b| - 1]) * 256 + b[|b| - 1]
  }

  function PutLittle(x: nat, n: nat): (b: seq<Byte>)
    ensures |b| == n
  {
    if n == 0 then [] else [x % 256] + PutLittle(x / 256, n - 1)
  }

  function Little(b: seq<Byte>): (x: nat) {
    if b == [] then 0 else b[0] + 256 * Little(b[1..])
  }

  ghost function Pow256(n: nat): (p: nat)
    ensures p > 0
  {
    if n == 0 then 1 else 256 * Pow256(n - 1)
  }

  lemma Pow256Values()
    ensures Pow256(4) == 0x1_0000_0000 && Pow256(8) == TWO_64
  {
    assert Pow256(2) == 0x1_0000;
    assert Pow256(4) == 0x1_0000_0000;
    assert Pow256(6) == 0x1_0000_0000_0000;
  }

  lemma {:induction false} BigRoundTrip(x: nat, n: nat)
    requires x < Pow256(n)
    ensures Big(PutBig(x, n)) == x
  {
    if n > 0 {
      BigRoundTrip(x / 256, n - 1);
      assert PutBig(x, n)[..n - 1] == PutBig(x / 256, n - 1);
    }
  }

  lemma {:induction false} BigBound(b: seq<Byte>)
    ensures Big(b) < Pow256(|b|) && PutBig(Big(b), |b|) == b
  {
    if b != [] {
      BigBound(b[..|b| - 1]);
      assert b == b[..|b| - 1] + [b[|b| - 1]];
    }
  }

  // Byte i counts the powers of 256 with exponent i: the low bytes come first.
  lemma {:induction false} LittleDigits(x: nat, n: nat, i: nat)
    requires i < n
    ensures PutLittle(x, n)[i] == x / Pow256(i) % 256
    decreases i
  {
    if i > 0 {
      LittleDigits(x / 256, n - 1, i - 1);
      DivideTwice(x, Pow256(i - 1));
    }
  }

  lemma DivideTwice(x: nat, p: nat)
    requires p > 0
    ensures x / 256 / p == x / (256 * p)
  {
    var q, r := x / 256 / p, x / 256 % p;
    assert x / 256 == q * p + r;
    assert 256 * (q * p) == q * (256 * p);
    QuotientIs(x, 256 * p, q, 256 * r + x % 256);
  }

  lemma QuotientIs(x: nat, p: nat, q: int, r: int)
    requires x == q * p + r && 0 <= r < p
    ensures x / p == q
  {
    var d := x / p - q;
    assert x == (q + d) * p + x % p;
    assert (q + d) * p == q * p + d * p;
    assert d * p == r - x % p && 0 - p < r - x % p < p;
    assert d > 0 ==> d * p >= p;
    assert d < 0 ==> d * p <= 0 - p;
  }

  lemma {:induction false} LittleRoundTrip(x: nat, n: nat)
    requires x < Pow256(n)
    ensures Little(PutLittle(x, n)) == x
  {
    if n > 0 {
      LittleRoundTrip(x / 256, n - 1);
      assert PutLittle(x, n)[1..] == PutLittle(x / 256, n - 1);
    }
  }

  // Lexicographic order on byte strings: the order of the stream index.
  predicate Before(a: seq<Byte>, b: seq<Byte>) {
    b != [] && (a == [] || a[0] < b[0] || (a[0] == b[0] && Before(a[1..], b[1..])))
  }

  lemma {:induction false} BeforeSnoc(a: seq<Byte>, b: seq<Byte>, x: Byte, y: Byte)
    requires |a| == |b|
    ensures Before(a + [x], b + [y]) <==> Before(a, b) || (a == b && x < y)
  {
    if a == [] {
      assert (a + [x])[1..] == [] && (b + [y])[1..] == [];
    } else {
      assert (a + [x])[1..] == a[1..] + [x] && (b + [y])[1..] == b[1..] + [y];
      BeforeSnoc(a[1..], b[1..], x, y);
      assert a == [a[0]] + a[1..] && b == [b[0]] + b[1..];
    }
  }

  lemma {:induction false} BeforeConcat(a: seq<Byte>, b: seq<Byte>, c: seq<Byte>, d: seq<Byte>)
    requires |a| == |b|
    ensures Before(a + c, b + d) <==> Before(a, b) || (a == b && Before(c, d))
  {
    if a == [] {
      assert a + c == c && b + d == d;
    } else {
      assert (a + c)[1..] == a[1..] + c && (b + d)[1..] == b[1..] + d;
      BeforeConcat(a[1..], b[1..], c, d);
      assert a == [a[0]] + a[1..] && b == [b[0]] + b[1..];
    }
  }

  // Big-endian bytes sort like the numbers they hold.
  lemma {:induction false} BigOrder(x: nat, y: nat, n: nat)
    requires x < Pow256(n) && y < Pow256(n)
    ensures Before(PutBig(x, n), PutBig(y, n)) <==> x < y
    ensures PutBig(x, n) == PutBig(y, n) <==> x == y
  {
    BigRoundTrip(x, n);
    BigRoundTrip(y, n);
    if n > 0 {
      BigOrder(x / 256, y / 256, n - 1);
      BigRoundTrip(x / 256, n - 1);
      BigRoundTrip(y / 256, n - 1);
      BeforeSnoc(PutBig(x / 256, n - 1), PutBig(y / 256, n - 1), x % 256, y % 256);
    }
  }

  // What begins with x at a position, read from there.
  lemma Suffix<T>(data: seq<T>, pos: nat, x: seq<T>, rest: seq<T>)
    requires pos <= |data| && data[pos..] == x + rest
    ensures pos + |x| <= |data| && data[pos + |x|..] == rest && data[pos..pos + |x|] == x
    ensures x != [] ==> data[pos] == x[0]
  {
    assert data[pos..][|x|..] == rest && data[pos..][..|x|] == x;
    assert x != [] ==> data[pos..][0] == x[0];
  }
}
