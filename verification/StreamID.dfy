/** Stream entry IDs (internal/datastructure/streamid.go): two uint64 numbers, milliseconds and sequence. */
module StreamIDs {
  import opened Bytes

  type Uint64 = x: int | 0 <= x < TWO_64

  datatype StreamID = StreamID(ms: Uint64, seq_: Uint64) {
    function Compare(b: StreamID): (r: int)
      ensures r == 0 <==> this == b
    {
      if ms < b.ms then -1
      else if ms > b.ms then 1
      else if seq_ < b.seq_ then -1
      else if seq_ > b.seq_ then 1
      else 0
    }

    predicate Less(b: StreamID) { Compare(b) < 0 }

    // The 16-byte key of the index.
    function EncodeToBytes(): (b: seq<Byte>)
      ensures |b| == 16
    {
      PutBig(ms, 8) + PutBig(seq_, 8)
    }

    // Seq++ on a uint64 wraps around.
    function NextSeq(): StreamID { StreamID(ms, (seq_ + 1) % TWO_64) }

    function ToString(): string { Decimal(ms) + "-" + Decimal(seq_) }
  }

  const MAX_ID: StreamID := StreamID(TWO_64 - 1, TWO_64 - 1)

  // The numeric meaning of an ID: Less is < on it.
  ghost function Rank(id: StreamID): nat { id.ms * TWO_64 + id.seq_ }

  lemma RankOrder(a: StreamID, b: StreamID)
    ensures a.Less(b) <==> Rank(a) < Rank(b)
    ensures Rank(a) == Rank(b) <==> a == b
    ensures a.Compare(b) > 0 <==> b.Less(a)
  {
    if a.ms < b.ms {
      assert (b.ms - a.ms) * TWO_64 >= TWO_64;
    } else if b.ms < a.ms {
      assert (a.ms - b.ms) * TWO_64 >= TWO_64;
    }
  }

  function DecodeFromBytes(b: seq<Byte>): (r: Result<StreamID>)
    ensures r.Ok? <==> |b| == 16
  {
    if |b| != 16 then Err("invalid key length")
    else
      EightBytes(b[0..8]);
      EightBytes(b[8..16]);
      Ok(StreamID(Big(b[0..8]), Big(b[8..16])))
  }

  lemma EightBytes(b: seq<Byte>)
    requires |b| == 8
    ensures Big(b) < TWO_64 && PutBig(Big(b), 8) == b
  {
    BigBound(b);
    Pow256Values();
  }

  lemma BytesRoundTrip(id: StreamID)
    ensures DecodeFromBytes(id.EncodeToBytes()) == Ok(id)
  {
    Pow256Values();
    BigRoundTrip(id.ms, 8);
    BigRoundTrip(id.seq_, 8);
    assert id.EncodeToBytes()[0..8] == PutBig(id.ms, 8) && id.EncodeToBytes()[8..16] == PutBig(id.seq_, 8);
  }

  // Every 16-byte key is the key of the ID it decodes to.
  lemma KeyRoundTrip(b: seq<Byte>)
    requires |b| == 16
    ensures DecodeFromBytes(b).value.EncodeToBytes() == b
  {
    EightBytes(b[0..8]);
    EightBytes(b[8..16]);
    assert b == b[0..8] + b[8..16];
  }

  // The index sorts keys as byte strings; that is the order of the IDs.
  lemma KeyOrder(a: StreamID, b: StreamID)
    ensures Before(a.EncodeToBytes(), b.EncodeToBytes()) <==> a.Less(b)
    ensures a.EncodeToBytes() == b.EncodeToBytes() <==> a == b
  {
    Pow256Values();
    BigOrder(a.ms, b.ms, 8);
    BigOrder(a.seq_, b.seq_, 8);
    BeforeConcat(PutBig(a.ms, 8), PutBig(b.ms, 8), PutBig(a.seq_, 8), PutBig(b.seq_, 8));
    BytesRoundTrip(a);
    BytesRoundTrip(b);
  }

  // ---- text ----

  function Digit(d: int): char
    requires 0 <= d < 10
  {
    ['0', '1', '2', '3', '4', '5', '6', '7', '8', '9'][d]
  }

  predicate IsDigit(c: char) { '0' <= c <= '9' }

  function DigitValue(c: char): (d: int)
    requires IsDigit(c)
    ensures 0 <= d < 10
  {
    c as int - '0' as int
  }

  // %d of a non-negative number.
  function Decimal(n: nat): (s: string)
    ensures |s| > 0 && forall i :: 0 <= i < |s| ==> IsDigit(s[i])
  {
    if n < 10 then [Digit(n)] else Decimal(n / 10) + [Digit(n % 10)]
  }

  // strconv.ParseUint(s, 10, 64).
  function ParseUint(s: string): (r: Result<Uint64>) {
    if s == [] then Err("syntax") else ParseDigits(s)
  }

  function ParseDigits(s: string): (r: Result<Uint64>) {
    if s == [] then Ok(0)
    else
      var head := ParseDigits(s[..|s| - 1]);
      var c := s[|s| - 1];
      if head.Err? || !IsDigit(c) || head.value * 10 + DigitValue(c) >= TWO_64 then Err("syntax or range")
      else Ok(head.value * 10 + DigitValue(c))
  }

  ghost predicate Digits(s: string) { forall i :: 0 <= i < |s| ==> IsDigit(s[i]) }

  // The number that decimal digits stand for.
  ghost function Value(s: string): nat
    requires Digits(s)
  {
    if s == [] then 0 else 10 * Value(s[..|s| - 1]) + DigitValue(s[|s| - 1])
  }

  // Digits for a number of 64 bits; leading zeros are allowed.
  ghost predicate IsNumber(s: string, n: Uint64) { s != [] && Digits(s) && Value(s) == n }

  lemma {:induction false} DigitsRead(s: string)
    ensures ParseDigits(s).Ok? <==> Digits(s) && Value(s) < TWO_64
    ensures ParseDigits(s).Ok? ==> ParseDigits(s).value == Value(s)
  {
    if s != [] {
      DigitsRead(s[..|s| - 1]);
      assert Digits(s) <==> Digits(s[..|s| - 1]) && IsDigit(s[|s| - 1]);
    }
  }

  // ParseUint reads exactly the numbers.
  lemma NumberReads(s: string, n: Uint64)
    ensures ParseUint(s) == Ok(n) <==> IsNumber(s, n)
  {
    DigitsRead(s);
  }

  lemma {:induction false} DecimalRoundTrip(n: nat)
    requires n < TWO_64
    ensures ParseDigits(Decimal(n)) == Ok(n) && ParseUint(Decimal(n)) == Ok(n)
  {
    if n >= 10 {
      DecimalRoundTrip(n / 10);
      assert Decimal(n)[..|Decimal(n)| - 1] == Decimal(n / 10);
    } else {
      assert Decimal(n)[..0] == [];
    }
  }

  // strings.Split(s, "-")
  function SplitDash(s: string): (parts: seq<string>)
    ensures |parts| > 0
  {
    if s == [] then [[]]
    else
      var rest := SplitDash(s[1..]);
      if s[0] == '-' then [[]] + rest else [[s[0]] + rest[0]] + rest[1..]
  }

  predicate IsSpace(c: char) { c == ' ' || 9 <= c as int <= 13 }

  // strings.TrimSpace, on bytes: the white space of ASCII.
  function TrimSpace(s: string): string {
    TrimRight(TrimLeft(s))
  }

  function TrimLeft(s: string): string {
    if s != [] && IsSpace(s[0]) then TrimLeft(s[1..]) else s
  }

  function TrimRight(s: string): string {
    if s != [] && IsSpace(s[|s| - 1]) then TrimRight(s[..|s| - 1]) else s
  }

  function ParseStreamID(s: string): (r: Result<StreamID>) {
    var parts := SplitDash(TrimSpace(s));
    if |parts| != 2 then Err("Invalid pattern")
    else
      var ms, sq := ParseUint(parts[0]), ParseUint(parts[1]);
      if ms.Err? || sq.Err? then Err("Invalid pattern") else Ok(StreamID(ms.value, sq.value))
  }

  ghost predicate Blank(c: char) { c in {' ', '\t', '\n', '\U{B}', '\U{C}', '\r'} }

  ghost predicate Spaces(s: string) { forall i :: 0 <= i < |s| ==> Blank(s[i]) }

  lemma SpaceIsBlank()
    ensures forall c :: IsSpace(c) <==> Blank(c)
  {
  }

  // t is s without the white space around it.
  ghost predicate Trimmed(s: string, t: string) {
    && (t != [] ==> !Blank(t[0]) && !Blank(t[|t| - 1]))
    && exists l, r :: Spaces(l) && Spaces(r) && s == l + t + r
  }

  lemma {:induction false} LeftSplit(s: string) returns (l: string)
    ensures Spaces(l) && s == l + TrimLeft(s) && (TrimLeft(s) != [] ==> !IsSpace(TrimLeft(s)[0]))
  {
    l := [];
    if s != [] && IsSpace(s[0]) {
      l := LeftSplit(s[1..]);
      l := [s[0]] + l;
    }
  }

  lemma {:induction false} RightSplit(s: string) returns (r: string)
    ensures Spaces(r) && s == TrimRight(s) + r && (TrimRight(s) != [] ==> !IsSpace(TrimRight(s)[|TrimRight(s)| - 1]))
  {
    r := [];
    if s != [] && IsSpace(s[|s| - 1]) {
      r := RightSplit(s[..|s| - 1]);
      r := r + [s[|s| - 1]];
    }
  }

  lemma {:induction false} LeftCut(l: string, t: string)
    requires Spaces(l) && (t != [] ==> !IsSpace(t[0]))
    ensures TrimLeft(l + t) == t
  {
    if l == [] {
      assert l + t == t;
    } else {
      assert (l + t)[1..] == l[1..] + t && IsSpace(l[0]);
      LeftCut(l[1..], t);
    }
  }

  lemma {:induction false} RightCut(t: string, r: string)
    requires Spaces(r) && (t != [] ==> !IsSpace(t[|t| - 1]))
    ensures TrimRight(t + r) == t
  {
    if r == [] {
      assert t + r == t;
    } else {
      assert (t + r)[..|t + r| - 1] == t + r[..|r| - 1] && IsSpace(r[|r| - 1]);
      RightCut(t, r[..|r| - 1]);
    }
  }

  // TrimSpace takes away the white space around a string and nothing else.
  lemma TrimReads(s: string, t: string)
    ensures TrimSpace(s) == t <==> Trimmed(s, t)
  {
    hide Blank;
    hide IsSpace;
    SpaceIsBlank();
    if TrimSpace(s) == t {
      var l := LeftSplit(s);
      var r := RightSplit(TrimLeft(s));
      assert t != [] ==> t[0] == TrimLeft(s)[0];
      assert s == l + t + r;
    }
    if Trimmed(s, t) {
      var l, r :| Spaces(l) && Spaces(r) && s == l + t + r;
      if t == [] {
        LeftCut(l + r, []);
        assert s == l + r && s == (l + r) + [];
      } else {
        LeftCut(l, t + r);
        RightCut(t, r);
        assert s == l + (t + r);
      }
    }
  }

  lemma {:induction false} SplitParts(s: string)
    ensures forall i :: 0 <= i < |SplitDash(s)| ==> '-' !in SplitDash(s)[i]
    ensures |SplitDash(s)| == 1 ==> SplitDash(s)[0] == s
    ensures |SplitDash(s)| == 2 ==> s == SplitDash(s)[0] + "-" + SplitDash(s)[1]
  {
    if s != [] {
      SplitParts(s[1..]);
      assert s == [s[0]] + s[1..];
    }
  }

  // Splitting in two is finding the only dash.
  lemma SplitReads(s: string, a: string, b: string)
    ensures SplitDash(s) == [a, b] <==> s == a + "-" + b && '-' !in a && '-' !in b
  {
    if s == a + "-" + b && '-' !in a && '-' !in b {
      SplitNoDash(a, "-" + b);
      SplitNoDash(b, []);
      assert s == a + ("-" + b) && b + [] == b && a + [] == a;
      assert ("-" + b)[1..] == b;
    }
    if SplitDash(s) == [a, b] {
      SplitParts(s);
      assert SplitDash(s)[0] == a && SplitDash(s)[1] == b;
    }
  }

  lemma {:induction false} SplitNoDash(a: string, rest: string)
    requires '-' !in a
    ensures SplitDash(a + rest) == [a + SplitDash(rest)[0]] + SplitDash(rest)[1..]
  {
    if a == [] {
      var parts := SplitDash(rest);
      assert a + rest == rest && a + parts[0] == parts[0];
      assert parts == [parts[0]] + parts[1..];
    } else {
      assert (a + rest)[1..] == a[1..] + rest;
      SplitNoDash(a[1..], rest);
      assert a == [a[0]] + a[1..] && a[0] in a;
      assert [a[0]] + (a[1..] + SplitDash(rest)[0]) == a + SplitDash(rest)[0];
    }
  }

  // What String prints, ParseStreamID reads.
  lemma TextRoundTrip(id: StreamID)
    ensures ParseStreamID(id.ToString()) == Ok(id)
  {
    var a, b := Decimal(id.ms), Decimal(id.seq_);
    var s := id.ToString();
    assert s == a + (['-'] + b);
    assert IsDigit(s[0]) by { assert s[0] == a[0]; }
    assert IsDigit(s[|s| - 1]) by { assert s[|s| - 1] == b[|b| - 1]; }
    assert TrimSpace(s) == s;
    assert '-' !in a && '-' !in b;
    SplitNoDash(b, []);
    assert b + [] == b;
    assert (['-'] + b)[1..] == b;
    assert SplitDash(b) == [b];
    assert SplitDash(['-'] + b) == [[]] + [b];
    SplitNoDash(a, ['-'] + b);
    assert a + [] == a;
    DecimalRoundTrip(id.ms);
    DecimalRoundTrip(id.seq_);
  }

  lemma TextInjective(a: StreamID, b: StreamID)
    requires a.ToString() == b.ToString()
    ensures a == b
  {
    TextRoundTrip(a);
    TextRoundTrip(b);
  }

  // ---- the next ID of XADD ----

  datatype Option<+T> = None | Some(value: T)

  datatype Requested = Wildcard | Partial(ms: Uint64) | Exact(id: StreamID)

  function ParseID(s: string): Result<Requested> {
    var t := TrimSpace(s);
    if t == "*" then Ok(Wildcard)
    else
      var parts := SplitDash(t);
      if |parts| != 2 then Err("Invalid pattern")
      else
        var ms := ParseUint(parts[0]);
        if ms.Err? then Err("Invalid pattern")
        else if parts[1] == "*" then Ok(Partial(ms.value))
        else
          var sq := ParseUint(parts[1]);
          if sq.Err? then Err("Invalid pattern") else Ok(Exact(StreamID(ms.value, sq.value)))
  }

  // What the text of an ID asks for, white space around it aside: "*", "ms-*" or "ms-seq".
  ghost predicate AsksFor(s: string, r: Requested) {
    match r
    case Wildcard => Trimmed(s, "*")
    case Partial(ms) => exists a :: IsNumber(a, ms) && Trimmed(s, a + "-" + "*")
    case Exact(id) => exists a, b :: IsNumber(a, id.ms) && IsNumber(b, id.seq_) && Trimmed(s, a + "-" + b)
  }

  lemma NoDash(s: string, n: Uint64)
    ensures IsNumber(s, n) ==> s != [] && '-' !in s && '*' !in s
  {
  }

  // ParseID reads exactly these texts, each for what it asks for.
  lemma IDReads(s: string, r: Requested)
    ensures ParseID(s) == Ok(r) <==> AsksFor(s, r)
  {
    if ParseID(s) == Ok(r) {
      ReadsID(s, r);
    }
    if AsksFor(s, r) {
      IDRead(s, r);
    }
  }

  lemma ReadsID(s: string, r: Requested)
    requires ParseID(s) == Ok(r)
    ensures AsksFor(s, r)
  {
    hide ParseUint;
    hide Trimmed;
    hide SplitDash;
    hide TrimSpace;
    hide IsNumber;
    var t := TrimSpace(s);
    TrimReads(s, t);
    if t != "*" {
      var parts := SplitDash(t);
      assert parts == [parts[0], parts[1]];
      SplitReads(t, parts[0], parts[1]);
      NumberReads(parts[0], if r.Partial? then r.ms else r.id.ms);
      if r.Exact? {
        NumberReads(parts[1], r.id.seq_);
      }
    }
  }

  lemma IDRead(s: string, r: Requested)
    requires AsksFor(s, r)
    ensures ParseID(s) == Ok(r)
  {
    hide ParseUint;
    hide Trimmed;
    hide SplitDash;
    hide TrimSpace;
    hide IsNumber;
    match r
    case Wildcard => TrimReads(s, "*");
    case Partial(ms) =>
      var a :| IsNumber(a, ms) && Trimmed(s, a + "-" + "*");
      NoDash(a, ms);
      NumberReads(a, ms);
      TrimReads(s, a + "-" + "*");
      SplitReads(a + "-" + "*", a, "*");
    case Exact(id) =>
      var a, b :| IsNumber(a, id.ms) && IsNumber(b, id.seq_) && Trimmed(s, a + "-" + b);
      NoDash(a, id.ms);
      NoDash(b, id.seq_);
      NumberReads(a, id.ms);
      NumberReads(b, id.seq_);
      TrimReads(s, a + "-" + b);
      SplitReads(a + "-" + b, a, b);
      assert b != "*" by { assert "*"[0] == '*'; }
  }

  // ParseStreamID takes the texts of whole IDs only.
  lemma StreamIDReads(s: string, id: StreamID)
    ensures ParseStreamID(s) == Ok(id) <==> AsksFor(s, Exact(id))
  {
    IDReads(s, Exact(id));
    SplitParts(TrimSpace(s));
    if TrimSpace(s) == "*" {
      SplitNoDash("*", []);
    }
    assert ParseUint("*").Err? by {
      assert !IsDigit("*"[0]);
    }
  }

  // now is the clock in milliseconds.
  function GenerateNextID(last: Option<StreamID>, requested: string, now: Uint64): Result<StreamID> {
    match ParseID(requested)
    case Err(m) => Err(m)
    case Ok(Wildcard) =>
      if last.None? || last.value.ms < now then Ok(StreamID(now, 0)) else Ok(last.value.NextSeq())
    case Ok(Partial(ms)) =>
      if last.None? then Ok(if ms == 0 then StreamID(0, 1) else StreamID(ms, 0))
      else if ms < last.value.ms then Err("not greater than top")
      else if ms == last.value.ms then Ok(last.value.NextSeq())
      else Ok(StreamID(ms, 0))
    case Ok(Exact(id)) =>
      if id == StreamID(0, 0) then Err("must be greater than 0-0")
      else if last.Some? && id.Compare(last.value) <= 0 then Err("not greater than top")
      else Ok(id)
  }

  // The ID behind another: the next sequence number, or 0 again when there is none.
  ghost function Following(id: StreamID): StreamID {
    StreamID(id.ms, if id.seq_ == TWO_64 - 1 then 0 else id.seq_ + 1)
  }

  ghost predicate IsAbove(id: StreamID, last: StreamID) {
    id.ms > last.ms || (id.ms == last.ms && id.seq_ > last.seq_)
  }

  // A requested ID is taken as it is, and refused if it is 0-0 or not above the last one.
  lemma ExactID(last: Option<StreamID>, requested: string, id: StreamID, now: Uint64)
    requires AsksFor(requested, Exact(id))
    ensures GenerateNextID(last, requested, now)
         == if id.ms == 0 && id.seq_ == 0 then Err("must be greater than 0-0")
            else if last.Some? && !IsAbove(id, last.value) then Err("not greater than top")
            else Ok(id)
  {
    IDReads(requested, Exact(id));
  }

  // With the milliseconds given: the first of them or the one behind the last, refused if they are over.
  lemma PartialID(last: Option<StreamID>, requested: string, ms: Uint64, now: Uint64)
    requires AsksFor(requested, Partial(ms))
    ensures GenerateNextID(last, requested, now)
         == if last.Some? && ms < last.value.ms then Err("not greater than top")
            else if last.Some? && ms == last.value.ms then Ok(Following(last.value))
            else if last.None? && ms == 0 then Ok(StreamID(0, 1))
            else Ok(StreamID(ms, 0))
  {
    IDReads(requested, Partial(ms));
  }

  // Without: the first one of the present millisecond, or the one behind the last if the clock is not past it.
  lemma WildcardID(last: Option<StreamID>, requested: string, now: Uint64)
    requires AsksFor(requested, Wildcard)
    ensures GenerateNextID(last, requested, now)
         == if last.Some? && last.value.ms >= now then Ok(Following(last.value)) else Ok(StreamID(now, 0))
  {
    IDReads(requested, Wildcard);
  }

  // Any other text is refused.
  lemma NoID(last: Option<StreamID>, requested: string, now: Uint64)
    requires forall r :: !AsksFor(requested, r)
    ensures GenerateNextID(last, requested, now).Err?
  {
    if ParseID(requested).Ok? {
      IDReads(requested, ParseID(requested).value);
    }
  }

  lemma DecimalIsNumber(n: Uint64)
    ensures IsNumber(Decimal(n), n)
  {
    DecimalRoundTrip(n);
    NumberReads(Decimal(n), n);
  }

  lemma TrimmedAlready(t: string)
    requires t != [] && !Blank(t[0]) && !Blank(t[|t| - 1])
    ensures Trimmed(t, t)
  {
    assert Spaces([]) && t == [] + t + [];
  }

  // The printed forms ask for what they say.
  lemma PrintedForms(id: StreamID)
    ensures AsksFor(id.ToString(), Exact(id))
    ensures AsksFor(Decimal(id.ms) + "-*", Partial(id.ms))
    ensures AsksFor("*", Wildcard)
  {
    var a, b := Decimal(id.ms), Decimal(id.seq_);
    DecimalIsNumber(id.ms);
    DecimalIsNumber(id.seq_);
    assert id.ToString() == a + "-" + b && a + "-*" == a + "-" + "*";
    TrimmedAlready(a + "-" + b);
    TrimmedAlready(a + "-" + "*");
    TrimmedAlready("*");
  }

  // A generated ID is above the last one unless the sequence number wrapped around, which it does exactly
  // when it was asked for within the last millisecond and is at its maximum.
  lemma GeneratedIsGreater(last: StreamID, requested: string, now: Uint64)
    requires GenerateNextID(Some(last), requested, now).Ok?
    ensures IsAbove(GenerateNextID(Some(last), requested, now).value, last)
       <==> !(last.seq_ == TWO_64 - 1 &&
              (AsksFor(requested, Partial(last.ms)) || (AsksFor(requested, Wildcard) && now <= last.ms)))
  {
    hide ParseID;
    hide AsksFor;
    IDReads(requested, Partial(last.ms));
    IDReads(requested, Wildcard);
  }

  // On an empty stream only the wildcard at clock zero yields 0-0, the ID that no reader ever gets to see.
  lemma GeneratedFirst(requested: string, now: Uint64)
    requires GenerateNextID(None, requested, now).Ok?
    ensures GenerateNextID(None, requested, now).value == StreamID(0, 0)
       <==> AsksFor(requested, Wildcard) && now == 0
  {
    hide ParseID;
    hide AsksFor;
    IDReads(requested, Wildcard);
  }
}
