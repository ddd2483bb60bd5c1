/** Signed decimal integers in strings, as strconv.Atoi and strconv.Itoa treat them. */
module Numbers {
  import opened Bytes
  import opened StreamIDs

  // strconv.Atoi, on a 64-bit platform.
  function Atoi(s: string): (r: Result<int>)
    ensures r.Ok? ==> -TWO_63 <= r.value < TWO_63
  {
    var negative := s != [] && s[0] == '-';
    var digits := if s != [] && (s[0] == '-' || s[0] == '+') then s[1..] else s;
    match ParseUint(digits)
    case Err(m) => Err(m)
    case Ok(n) =>
      var m: int := n;
      if negative then (if n <= TWO_63 then Ok(-m) else Err("range"))
      else if m < TWO_63 then Ok(m) else Err("range")
  }

  function Itoa(n: int): string { if n < 0 then "-" + Decimal(-n) else Decimal(n) }

  function Wrap(n: int): (r: int)
    ensures -TWO_63 <= r < TWO_63
    ensures -TWO_63 <= n < TWO_63 ==> r == n
  {
    (n + TWO_63) % TWO_64 - TWO_63
  }

  lemma AtoiItoa(n: int)
    requires -TWO_63 <= n < TWO_63
    ensures Atoi(Itoa(n)) == Ok(n)
  {
    hide Decimal;
    hide ParseUint;
    var m := if n < 0 then -n else n;
    DecimalRoundTrip(m);
    assert ("-" + Decimal(m))[1..] == Decimal(m);
    assert IsDigit(Decimal(m)[0]);
  }

  lemma {:induction false} DecimalIsShortest(n: nat)
    ensures Digits(Decimal(n)) && Value(Decimal(n)) == n && (|Decimal(n)| > 1 ==> Decimal(n)[0] != '0')
  {
    var s := Decimal(n);
    if n >= 10 {
      DecimalIsShortest(n / 10);
      assert s[..|s| - 1] == Decimal(n / 10);
      assert n / 10 < 10 ==> Decimal(n / 10) == [Digit(n / 10)];
    } else {
      assert s[..0] == [];
    }
  }

  // Itoa writes the shortest text: a minus sign for a negative number, and digits without a leading zero.
  lemma ItoaIsShortest(n: int)
    ensures n < 0 <==> Itoa(n)[0] == '-'
    ensures var digits := if n < 0 then Itoa(n)[1..] else Itoa(n);
            && Digits(digits) && Value(digits) == (if n < 0 then -n else n)
            && digits != [] && (|digits| > 1 ==> digits[0] != '0')
  {
    hide Decimal;
    hide Value;
    DecimalIsShortest(if n < 0 then -n else n);
    if n < 0 {
      assert Itoa(n)[1..] == Decimal(-n);
    }
  }

  // Atoi reads exactly digits with or without a sign in front, for the numbers of 64 bits.
  lemma AtoiReads(s: string, n: int)
    requires -TWO_63 <= n < TWO_63
    ensures Atoi(s) == Ok(n) <==>
            || (n >= 0 && (IsNumber(s, n) || (s != [] && s[0] == '+' && IsNumber(s[1..], n))))
            || (n <= 0 && s != [] && s[0] == '-' && IsNumber(s[1..], -n))
  {
    hide ParseUint;
    var digits := if s != [] && (s[0] == '-' || s[0] == '+') then s[1..] else s;
    if n >= 0 {
      NumberReads(digits, n);
    }
    if n <= 0 {
      NumberReads(digits, -n);
    }
    assert s != [] && !IsDigit(s[0]) ==> forall m: Uint64 :: !IsNumber(s, m);
  }

  // What a 64-bit integer makes of a number differs from it by a multiple of 2^64.
  lemma WrapIsCongruent(n: int)
    ensures (n - Wrap(n)) % TWO_64 == 0
  {
    var k := (n + TWO_63) / TWO_64;
    assert n - Wrap(n) == TWO_64 * k;
  }

  lemma WrapNext(n: int)
    ensures Wrap(Wrap(n) + 1) == Wrap(n + 1)
  {
  }
}
