/** Geohash codes on the integer grid (internal/geo/geohash.go): bit interleaving, and the score ranges of a
    cell and its neighbours. */
module Geo {

  // ---- the bit code ----

  function SpreadInt32ToInt64(val: bv64): bv64 {
    var v := val & 0xFFFFFFFF;
    var v := (v | (v << 16)) & 0x0000FFFF0000FFFF;
    var v := (v | (v << 8)) & 0x00FF00FF00FF00FF;
    var v := (v | (v << 4)) & 0x0F0F0F0F0F0F0F0F;
    var v := (v | (v << 2)) & 0x3333333333333333;
    (v | (v << 1)) & 0x5555555555555555
  }

  function CompactInt64ToInt32(val: bv64): bv64 {
    var v := val & 0x5555555555555555;
    var v := (v | (v >> 1)) & 0x3333333333333333;
    var v := (v | (v >> 2)) & 0x0F0F0F0F0F0F0F0F;
    var v := (v | (v >> 4)) & 0x00FF00FF00FF00FF;
    var v := (v | (v >> 8)) & 0x0000FFFF0000FFFF;
    (v | (v >> 16)) & 0x00000000FFFFFFFF
  }

  function Interleave(x: bv64, y: bv64): bv64 {
    SpreadInt32ToInt64(x) | (SpreadInt32ToInt64(y) << 1)
  }

  // Compacting undoes spreading, on the low 32 bits; spreading undoes compacting, on the even bits.
  lemma SpreadRoundTrip(v: bv64)
    ensures CompactInt64ToInt32(SpreadInt32ToInt64(v)) == v & 0xFFFFFFFF
    ensures SpreadInt32ToInt64(CompactInt64ToInt32(v)) == v & 0x5555555555555555
  {
  }

  // Both grid coordinates come back from the code.
  lemma InterleaveRoundTrip(x: bv64, y: bv64)
    requires x <= 0xFFFFFFFF && y <= 0xFFFFFFFF
    ensures CompactInt64ToInt32(Interleave(x, y)) == x
    ensures CompactInt64ToInt32(Interleave(x, y) >> 1) == y
  {
  }

  lemma SpreadHalves(v: bv64)
    requires v <= 0xFFFFFFFF
    ensures SpreadInt32ToInt64(v >> 1) == SpreadInt32ToInt64(v) >> 2
    ensures SpreadInt32ToInt64(v) & 1 == v & 1 && SpreadInt32ToInt64(v) & 0xAAAAAAAAAAAAAAAA == 0
  {
  }

  lemma JoinHalves(a: bv64, b: bv64)
    requires a & 0xAAAAAAAAAAAAAAAA == 0 && b & 0xAAAAAAAAAAAAAAAA == 0
    ensures ((a | (b << 1)) >> 1) >> 1 == (a >> 2) | ((b >> 2) << 1)
    ensures (a | (b << 1)) & 1 == a & 1 && ((a | (b << 1)) >> 1) & 1 == b & 1
  {
  }

  // ---- the numbers that bits stand for ----

  function Half(v: bv64): bv64 { v >> 1 }

  function Low(v: bv64): nat { if v & 1 == 1 then 1 else 0 }

  function Value(v: bv64): nat
    decreases v
  {
    if v == 0 then 0 else 2 * Value(Half(v)) + Low(v)
  }

  lemma InterleaveBits(x: bv64, y: bv64)
    requires x <= 0xFFFFFFFF && y <= 0xFFFFFFFF
    ensures (Interleave(x, y) >> 1) >> 1 == Interleave(x >> 1, y >> 1)
    ensures Interleave(x, y) & 1 == x & 1 && (Interleave(x, y) >> 1) & 1 == y & 1
  {
    hide SpreadInt32ToInt64;
    SpreadHalves(x);
    SpreadHalves(y);
    JoinHalves(SpreadInt32ToInt64(x), SpreadInt32ToInt64(y));
  }

  lemma InterleaveHalves(x: bv64, y: bv64)
    requires x <= 0xFFFFFFFF && y <= 0xFFFFFFFF
    ensures Half(Half(Interleave(x, y))) == Interleave(Half(x), Half(y))
    ensures Low(Interleave(x, y)) == Low(x) && Low(Half(Interleave(x, y))) == Low(y)
  {
    hide Interleave;
    InterleaveBits(x, y);
  }

  function Bits(n: nat): bv64 {
    if n == 0 then 0 else (Bits(n / 2) << 1) | if n % 2 == 1 then 1 else 0
  }

  function Pow2(k: nat): (p: nat)
    ensures p > 0
  {
    if k == 0 then 1 else 2 * Pow2(k - 1)
  }

  function Pow4(k: nat): (p: nat)
    ensures p > 0
  {
    if k == 0 then 1 else 4 * Pow4(k - 1)
  }

  // Interleaving as arithmetic.
  ghost function Morton(x: nat, y: nat): nat
    decreases x + y
  {
    if x == 0 && y == 0 then 0 else 4 * Morton(x / 2, y / 2) + 2 * (y % 2) + x % 2
  }

  lemma HalfSmall(v: bv64)
    requires v <= 0xFFFFFFFF
    ensures Half(v) <= 0xFFFFFFFF
  {
  }

  lemma ShiftedIn(v: bv64, low: bv64)
    requires v <= 0xFFFFFFFF && low <= 1
    ensures Half((v << 1) | low) == v && Low((v << 1) | low) == if low == 1 then 1 else 0
  {
  }

  lemma ValueStep(v: bv64)
    ensures Value(v) == 2 * Value(Half(v)) + Low(v)
  {
  }

  // The largest number of k bits.
  ghost function Ones(k: nat): bv64 { if k == 0 then 0 else (Ones(k - 1) << 1) | 1 }

  lemma OnesAt32()
    ensures Ones(32) == 0xFFFFFFFF
  {
    assert Ones(8) == 0xFF;
    assert Ones(16) == 0xFFFF;
    assert Ones(24) == 0xFFFFFF;
  }

  predicate Within(v: bv64, mask: bv64) { v | mask == mask }

  lemma WithinShift(v: bv64, mask: bv64, low: bv64)
    requires Within(v, mask) && low <= 1
    ensures Within((v << 1) | low, (mask << 1) | 1)
  {
  }

  lemma WithinSmall(v: bv64)
    ensures Within(v, 0xFFFFFFFF) ==> v <= 0xFFFFFFFF
    ensures Within(0, v)
  {
  }

  lemma OnesStep(k: nat)
    requires k > 0
    ensures Ones(k) == (Ones(k - 1) << 1) | 1
  {
  }

  lemma BitsStep(n: nat)
    requires n > 0
    ensures Bits(n) == (Bits(n / 2) << 1) | if n % 2 == 1 then 1 else 0
  {
  }

  lemma {:induction false} BitsWithin(n: nat, k: nat)
    requires n < Pow2(k)
    ensures Within(Bits(n), Ones(k))
    decreases k
  {
    if n == 0 {
      WithinSmall(Ones(k));
    } else {
      hide Bits;
      hide Within;
      BitsWithin(n / 2, k - 1);
      BitsStep(n);
      OnesStep(k);
      WithinShift(Bits(n / 2), Ones(k - 1), if n % 2 == 1 then 1 else 0);
    }
  }

  lemma BitsSmall(n: nat)
    requires n < 0x1_0000_0000
    ensures Bits(n) <= 0xFFFFFFFF
  {
    hide Bits;
    hide Ones;
    hide Within;
    Pow2Values();
    BitsWithin(n, 32);
    OnesAt32();
    WithinSmall(Bits(n));
  }

  lemma Pow2Values()
    ensures Pow2(26) == 0x400_0000 && Pow2(32) == 0x1_0000_0000
  {
    assert Pow2(8) == 256;
    assert Pow2(16) == 0x1_0000;
    assert Pow2(24) == 0x100_0000;
  }

  lemma {:induction false} BitsRoundTrip(n: nat)
    requires n < 0x1_0000_0000
    ensures Bits(n) <= 0xFFFFFFFF && Value(Bits(n)) == n
  {
    if n > 0 {
      hide Value;
      hide Bits;
      BitsSmall(n);
      BitsRoundTrip(n / 2);
      BitsStep(n);
      ShiftedIn(Bits(n / 2), if n % 2 == 1 then 1 else 0);
      ValueStep(Bits(n));
    }
  }

  // The bit tricks compute the interleaving.
  lemma {:induction false} InterleaveIsMorton(x: bv64, y: bv64)
    requires x <= 0xFFFFFFFF && y <= 0xFFFFFFFF
    ensures Value(Interleave(x, y)) == Morton(Value(x), Value(y))
    decreases x, y
  {
    hide Interleave;
    hide Morton;
    if x == 0 && y == 0 {
      InterleaveZero();
    } else {
      hide Value;
      hide Half;
      hide Low;
      HalfSmall(x);
      HalfSmall(y);
      HalfLess(x);
      HalfLess(y);
      InterleaveIsMorton(Half(x), Half(y));
      InterleaveHalves(x, y);
      var code := Interleave(x, y);
      var a, b, half := Value(Half(x)), Value(Half(y)), Value(Half(code));
      ValueStep(x);
      ValueStep(y);
      ValueStep(code);
      ValueStep(Half(code));
      LowSmall(x);
      LowSmall(y);
      MortonOfBits(Value(x), Value(y), Value(code), a, b, half, Low(x), Low(y));
    }
  }

  // x and y end in the bits p and q, and so does the code.
  lemma MortonOfBits(x: nat, y: nat, code: nat, a: nat, b: nat, half: nat, p: nat, q: nat)
    requires p <= 1 && q <= 1 && x == 2 * a + p && y == 2 * b + q
    requires code == 2 * half + p && half == 2 * Morton(a, b) + q
    ensures code == Morton(x, y)
  {
    assert x / 2 == a && y / 2 == b;
  }

  lemma LowSmall(v: bv64)
    ensures Low(v) <= 1
  {
  }

  lemma InterleaveZero()
    ensures Interleave(0, 0) == 0 && Morton(0, 0) == 0
  {
  }

  lemma HalfLess(v: bv64)
    ensures v == 0 ==> Half(v) == 0
    ensures v != 0 ==> Half(v) < v
  {
  }

  lemma MortonStep(x: nat, y: nat)
    ensures Morton(x, y) == 4 * Morton(x / 2, y / 2) + 2 * (y % 2) + x % 2
  {
  }

  // ---- cells ----

  lemma {:induction false} MortonInjective(x: nat, y: nat, a: nat, b: nat)
    requires Morton(x, y) == Morton(a, b)
    ensures x == a && y == b
    decreases x + y + a + b
  {
    if x + y + a + b > 0 {
      MortonStep(x, y);
      MortonStep(a, b);
      MortonInjective(x / 2, y / 2, a / 2, b / 2);
    }
  }

  // n >> k
  function ShiftRight(n: nat, k: nat): nat { if k == 0 then n else ShiftRight(n / 2, k - 1) }

  // Cutting two bits per level off a code cuts one bit per level off the coordinates.
  lemma {:induction false} MortonPrefix(x: nat, y: nat, k: nat)
    ensures ShiftRight(Morton(x, y), 2 * k) == Morton(ShiftRight(x, k), ShiftRight(y, k))
  {
    if k > 0 {
      MortonStep(x, y);
      assert Morton(x, y) / 2 / 2 == Morton(x / 2, y / 2);
      MortonPrefix(x / 2, y / 2, k - 1);
      ShiftTwice(Morton(x, y), k);
    }
  }

  lemma {:induction false} ShiftOnce(n: nat, j: nat)
    requires j > 0
    ensures ShiftRight(n, j) == ShiftRight(n / 2, j - 1)
  {
  }

  lemma {:induction false} ShiftTwice(n: nat, k: nat)
    requires k > 0
    ensures ShiftRight(n, 2 * k) == ShiftRight(n / 2 / 2, 2 * (k - 1))
  {
    hide ShiftRight;
    ShiftOnce(n, 2 * k);
    ShiftOnce(n / 2, 2 * k - 1);
  }

  lemma TimesPow4(n: nat, k: nat)
    requires k > 0
    ensures n * Pow4(k) == 4 * (n * Pow4(k - 1))
  {
    var p := Pow4(k - 1);
    assert n * (4 * p) == 4 * (n * p);
  }

  // The codes that begin with the bits of the hash.
  lemma {:induction false} InCell(code: nat, hash: nat, k: nat)
    ensures hash * Pow4(k) <= code <= (hash + 1) * Pow4(k) - 1 <==> ShiftRight(code, 2 * k) == hash
    decreases k
  {
    if k == 0 {
      assert hash * Pow4(0) == hash;
    } else {
      hide Pow4;
      hide ShiftRight;
      InCell(code / 2 / 2, hash, k - 1);
      ShiftTwice(code, k);
      TimesPow4(hash, k);
      TimesPow4(hash + 1, k);
    }
  }

  const MAX_STEPS: nat := 26

  // A code lies in the range of a cell if and only if both coordinates begin with the bits of the cell.
  lemma CellRange(x: nat, y: nat, cellX: nat, cellY: nat, k: nat)
    ensures Morton(cellX, cellY) * Pow4(k) <= Morton(x, y) <= (Morton(cellX, cellY) + 1) * Pow4(k) - 1
       <==> ShiftRight(x, k) == cellX && ShiftRight(y, k) == cellY
  {
    hide Morton;
    hide Pow4;
    hide ShiftRight;
    InCell(Morton(x, y), Morton(cellX, cellY), k);
    MortonPrefix(x, y, k);
    if Morton(ShiftRight(x, k), ShiftRight(y, k)) == Morton(cellX, cellY) {
      MortonInjective(ShiftRight(x, k), ShiftRight(y, k), cellX, cellY);
    }
  }

  // ---- the ranges of a search ----

  datatype Range = Range(min: int, max: int)

  // The 52-bit number of a cell.
  function Hash(x: nat, y: nat): nat { Value(Interleave(Bits(x), Bits(y))) }

  lemma HashIsMorton(x: nat, y: nat)
    requires x < 0x1_0000_0000 && y < 0x1_0000_0000
    ensures Hash(x, y) == Morton(x, y)
  {
    hide Interleave;
    hide Morton;
    hide Bits;
    BitsRoundTrip(x);
    BitsRoundTrip(y);
    InterleaveIsMorton(Bits(x), Bits(y));
  }

  const OFFSETS: seq<(int, int)> := [(0, 0), (0, 1), (0, -1), (1, 0), (-1, 0), (1, 1), (-1, 1), (1, -1), (-1, -1)]

  // The first coordinate wraps around, the second does not.
  function Wrapped(x: int, max: int): int { if x < 0 then max else if x > max then 0 else x }

  // The cell is one of the nine around (x, y).  The first coordinate is counted round the grid; one step off the
  // grid lies between its two edges, and anything further off at the nearer edge.
  ghost predicate InBlock(cellX: int, cellY: int, x: int, y: int, max: nat) {
    && 0 <= cellX <= max && 0 <= cellY <= max && -1 <= cellY - y <= 1
    && if 0 <= x <= max then (cellX - x + 1) % (max + 1) <= 2
       else if x == -1 || x == max + 1 then cellX == 0 || cellX == max
       else cellX == if x < 0 then max else 0
  }

  lemma Remainder(d: int, m: nat)
    requires 0 < m && 0 - m <= d <= m
    ensures d % m == if d == 0 - m || d == m then 0 else if d < 0 then d + m else d
  {
    if d < 0 {
      assert d % m == (d + m) % m by {
        assert d == m * -1 + (d + m);
      }
    }
  }

  lemma WrapsAround(cellX: int, x: int, max: nat)
    requires 0 <= cellX <= max && 0 <= x <= max
    ensures (cellX - x + 1) % (max + 1) <= 2
       <==> cellX == Wrapped(x, max) || cellX == Wrapped(x + 1, max) || cellX == Wrapped(x - 1, max)
  {
    var d := cellX - x + 1;
    Remainder(d, max + 1);
  }

  ghost predicate Covers(ranges: seq<Range>, code: int) {
    exists i :: 0 <= i < |ranges| && ranges[i].min <= code <= ranges[i].max
  }

  // The cells of the first n offsets.
  ghost predicate AmongFirst(n: nat, cellX: int, cellY: int, x: int, y: int, max: int)
    requires n <= |OFFSETS|
  {
    exists i :: 0 <= i < n && cellX == Wrapped(x + OFFSETS[i].0, max) && cellY == y + OFFSETS[i].1 && 0 <= cellY <= max
  }

  lemma AllOffsets(cellX: int, cellY: int, x: int, y: int, max: nat)
    ensures AmongFirst(|OFFSETS|, cellX, cellY, x, y, max) <==> InBlock(cellX, cellY, x, y, max)
  {
    if 0 <= cellX <= max && 0 <= x <= max {
      WrapsAround(cellX, x, max);
    }
    if InBlock(cellX, cellY, x, y, max) {
      var dx := if cellX == Wrapped(x, max) then 0 else if cellX == Wrapped(x + 1, max) then 1 else -1;
      var d := (dx, cellY - y);
      assert d in OFFSETS;
      var i :| 0 <= i < |OFFSETS| && OFFSETS[i] == d;
    }
  }

  // Any coordinates: the upper bound of the map encodes to one past the last cell, and a position off the
  // map to -1, since the error is ignored.
  method Get9GeoRanges(x: int, y: int, precision: nat) returns (ranges: seq<Range>)
    requires 1 <= precision <= MAX_STEPS
    ensures forall cx: nat, cy: nat {:trigger Morton(cx, cy)} ::
      Covers(ranges, Morton(cx, cy)) <==>
      InBlock(ShiftRight(cx, 26 - precision), ShiftRight(cy, 26 - precision), x, y, Pow2(precision) - 1)
  {
    hide Morton;
    hide Pow2;
    hide Pow4;
    hide Hash;
    ranges := [];
    var maxGridVal := Pow2(precision) - 1;
    Pow2Grows(precision, MAX_STEPS);
    Pow2Values();
    ghost var k := MAX_STEPS - precision;
    for i := 0 to |OFFSETS|
      invariant CoversFirst(ranges, i, x, y, k, maxGridVal)
    {
      var nx := x + OFFSETS[i].0;
      var ny := y + OFFSETS[i].1;
      if nx < 0 {
        nx := maxGridVal;
      } else if nx > maxGridVal {
        nx := 0;
      }
      if ny < 0 || ny > maxGridVal {
        SkipsCell(ranges, i, x, y, k, maxGridVal);
        continue;
      }
      HashIsMorton(nx, ny);
      var hash := Hash(nx, ny);
      var size := Pow4(MAX_STEPS - precision);
      AddsCell(ranges, i, x, y, k, maxGridVal, nx, ny);
      ranges := ranges + [Range(hash * size, (hash + 1) * size - 1)];
    }
    forall cx: nat, cy: nat ensures
      Covers(ranges, Morton(cx, cy)) <==> InBlock(ShiftRight(cx, k), ShiftRight(cy, k), x, y, maxGridVal)
    {
      AllOffsets(ShiftRight(cx, k), ShiftRight(cy, k), x, y, maxGridVal);
    }
  }

  ghost predicate CoversFirst(ranges: seq<Range>, n: nat, x: int, y: int, k: nat, max: int)
    requires n <= |OFFSETS|
  {
    forall cx: nat, cy: nat {:trigger Morton(cx, cy)} ::
      Covers(ranges, Morton(cx, cy)) <==> AmongFirst(n, ShiftRight(cx, k), ShiftRight(cy, k), x, y, max)
  }

  lemma {:induction false} Pow2Grows(a: nat, b: nat)
    requires a <= b
    ensures Pow2(a) <= Pow2(b)
    decreases b - a
  {
    if a < b {
      Pow2Grows(a + 1, b);
    }
  }

  lemma SkipsCell(ranges: seq<Range>, n: nat, x: int, y: int, k: nat, max: int)
    requires n < |OFFSETS| && CoversFirst(ranges, n, x, y, k, max)
    requires !(0 <= y + OFFSETS[n].1 <= max)
    ensures CoversFirst(ranges, n + 1, x, y, k, max)
  {
    hide Morton;
    hide Pow2;
    hide Wrapped;
    forall cx: nat, cy: nat ensures
      var sx, sy := ShiftRight(cx, k), ShiftRight(cy, k);
      AmongFirst(n + 1, sx, sy, x, y, max) <==> AmongFirst(n, sx, sy, x, y, max)
    {
    }
  }

  lemma AddsCell(ranges: seq<Range>, n: nat, x: int, y: int, k: nat, max: int, nx: nat, ny: nat)
    requires n < |OFFSETS| && CoversFirst(ranges, n, x, y, k, max)
    requires nx == Wrapped(x + OFFSETS[n].0, max) && ny == y + OFFSETS[n].1 && ny <= max
    ensures CoversFirst(ranges + [Range(Morton(nx, ny) * Pow4(k), (Morton(nx, ny) + 1) * Pow4(k) - 1)],
                        n + 1, x, y, k, max)
  {
    hide Morton;
    hide Pow2;
    hide Pow4;
    hide Wrapped;
    var cell := Range(Morton(nx, ny) * Pow4(k), (Morton(nx, ny) + 1) * Pow4(k) - 1);
    var more := ranges + [cell];
    forall cx: nat, cy: nat ensures
      Covers(more, Morton(cx, cy)) <==> AmongFirst(n + 1, ShiftRight(cx, k), ShiftRight(cy, k), x, y, max)
    {
      CellRange(cx, cy, nx, ny, k);
      CoversMore(ranges, cell, Morton(cx, cy));
    }
  }

  lemma CoversMore(ranges: seq<Range>, r: Range, code: int)
    ensures Covers(ranges + [r], code) <==> Covers(ranges, code) || r.min <= code <= r.max
  {
    var more := ranges + [r];
    if Covers(ranges, code) {
      var i :| 0 <= i < |ranges| && ranges[i].min <= code <= ranges[i].max;
      assert more[i] == ranges[i];
    }
    if r.min <= code <= r.max {
      assert more[|ranges|] == r;
    }
  }
}
