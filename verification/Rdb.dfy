/** RDB files (internal/rdb/parser.go): the writer, the reader, and what the opcodes between them mean. */
module Rdb {
  import opened Bytes
  import opened StreamIDs
  import opened Numbers
  import Evictions

  type Text = seq<Byte>

  const TWO_32: int := 0x1_0000_0000
  const MILLION: int := 1000000

  // Times are nanoseconds since 1970.
  datatype RDBEntry = RDBEntry(key: Text, value: Text, expireAt: Option<int>)

  // ---- reading at a position ----

  datatype Length = Plain(n: nat) | Special(encoding: int)

  function ReadByte(data: seq<Byte>, pos: nat): (r: Result<(Byte, nat)>)
    requires pos <= |data|
    ensures r.Ok? ==> r.value.1 == pos + 1 <= |data|
  {
    if pos >= |data| then Err("unexpected EOF") else Ok((data[pos], pos + 1))
  }

  function ReadN(data: seq<Byte>, pos: nat, n: nat): (r: Result<(seq<Byte>, nat)>)
    requires pos <= |data|
    ensures r.Ok? ==> r.value.1 == pos + n <= |data| && |r.value.0| == n
  {
    if pos + n > |data| then Err("unexpected EOF") else Ok((data[pos..pos + n], pos + n))
  }

  function ReadLength(data: seq<Byte>, pos: nat): (r: Result<(Length, nat)>)
    requires pos <= |data|
    ensures r.Ok? ==> pos < r.value.1 <= |data|
  {
    match ReadByte(data, pos)
    case Err(m) => Err(m)
    case Ok((first, p)) =>
      var low := first % 64;
      match first / 64
      case 0 => Ok((Plain(low), p))
      case 1 =>
        (match ReadByte(data, p)
         case Err(m) => Err(m)
         case Ok((next, q)) => Ok((Plain(low * 256 + next), q)))
      case 2 =>
        (match ReadN(data, p, 4)
         case Err(m) => Err(m)
         case Ok((buf, q)) => Ok((Plain(Big(buf)), q)))
      case _ => Ok((Special(low), p))
  }

  // The decimal text of a number, as bytes.
  function Ascii(s: string): (t: Text)
    ensures |t| == |s| && forall i :: 0 <= i < |s| && s[i] as int < 256 ==> t[i] == s[i] as int
  {
    seq(|s|, i requires 0 <= i < |s| => if s[i] as int < 256 then s[i] as int else 0)
  }

  // An unsigned number of the given width as a two's complement one.
  function Signed(n: nat, half: nat): int { if n < half then n else n - 2 * half }

  function ReadString(data: seq<Byte>, pos: nat): (r: Result<(Text, nat)>)
    requires pos <= |data|
    ensures r.Ok? ==> pos < r.value.1 <= |data|
  {
    match ReadLength(data, pos)
    case Err(m) => Err(m)
    case Ok((Plain(n), p)) => ReadN(data, p, n)
    case Ok((Special(encoding), p)) =>
      if encoding == 3 then Err("unsupported type")
      else if encoding > 3 then Err("unknown string encoding type")
      else
        var width := if encoding == 0 then 1 else if encoding == 1 then 2 else 4;
        match ReadN(data, p, width)
        case Err(m) => Err(m)
        case Ok((buf, q)) =>
          var half := if width == 1 then 0x80 else if width == 2 then 0x8000 else 0x8000_0000;
          Ok((Ascii(Itoa(Signed(Little(buf), half))), q))
  }

  // ---- opcodes ----

  datatype Op =
    | Aux(name: Text, info: Text)
    | Select(db: Length)
    | Resize(keys: Length, expires: Length)
    | ExpireMs(ms: nat)
    | ExpireSec(secs: nat)
    | Pair(key: Text, value: Text)
    | End

  function ReadTexts(data: seq<Byte>, pos: nat): (r: Result<(Text, Text, nat)>)
    requires pos <= |data|
    ensures r.Ok? ==> pos < r.value.2 <= |data|
  {
    match ReadString(data, pos)
    case Err(m) => Err(m)
    case Ok((a, p)) =>
      match ReadString(data, p)
      case Err(m) => Err(m)
      case Ok((b, q)) => Ok((a, b, q))
  }

  function ReadOp(data: seq<Byte>, pos: nat): (r: Result<(Op, nat)>)
    requires pos <= |data|
    ensures r.Ok? ==> pos < r.value.1 <= |data|
  {
    match ReadByte(data, pos)
    case Err(m) => Err(m)
    case Ok((b, p)) =>
      if b == 0xFA then
        match ReadTexts(data, p)
        case Err(m) => Err(m)
        case Ok((name, info, q)) => Ok((Aux(name, info), q))
      else if b == 0xFE then
        match ReadLength(data, p)
        case Err(m) => Err(m)
        case Ok((db, q)) => Ok((Select(db), q))
      else if b == 0xFB then
        match ReadLength(data, p)
        case Err(m) => Err(m)
        case Ok((keys, q)) =>
          (match ReadLength(data, q)
           case Err(m) => Err(m)
           case Ok((expires, s)) => Ok((Resize(keys, expires), s)))
      else if b == 0xFC then
        match ReadN(data, p, 8)
        case Err(m) => Err(m)
        case Ok((buf, q)) => Ok((ExpireMs(Little(buf)), q))
      else if b == 0xFD then
        match ReadN(data, p, 4)
        case Err(m) => Err(m)
        case Ok((buf, q)) => Ok((ExpireSec(Little(buf)), q))
      else if b == 0xFF then
        match ReadN(data, p, 8)
        case Err(m) => Err(m)
        case Ok((_, q)) => Ok((End, q))
      else if b == 0 then
        match ReadTexts(data, p)
        case Err(m) => Err(m)
        case Ok((key, value, q)) => Ok((Pair(key, value), q))
      else Err("unsupported type")
  }

  // What the loop of the parser carries from opcode to opcode.
  datatype Loading = Loading(entries: seq<RDBEntry>, currentExpire: Option<int>, estimatedSize: nat)

  // The number of keys in a resize hint; the hint of a special length is zero.
  function HintOf(l: Length): nat { if l.Plain? then l.n else 0 }

  // A first hint of reasonable size makes a new list, and forgets what is in the old one.
  predicate Starts(s: Loading, keys: Length) { s.estimatedSize == 0 && 0 < HintOf(keys) < MILLION }

  function Apply(s: Loading, op: Op): Loading {
    match op
    case Aux(_, _) => s
    case Select(_) => s
    case Resize(keys, _) => if Starts(s, keys) then s.(entries := [], estimatedSize := HintOf(keys)) else s
    case ExpireMs(ms) => s.(currentExpire := Some(Wrap(Wrap(ms) * MILLION)))
    case ExpireSec(secs) => s.(currentExpire := Some(secs * 1000 * MILLION))
    case Pair(key, value) => s.(entries := s.entries + [RDBEntry(key, value, s.currentExpire)], currentExpire := None)
    case End => s
  }

  ghost function ParseFrom(data: seq<Byte>, pos: nat, s: Loading): Result<seq<RDBEntry>>
    requires pos <= |data|
    decreases |data| - pos
  {
    match ReadOp(data, pos)
    case Err(m) => Err(m)
    case Ok((op, next)) => if op == End then Ok(s.entries) else ParseFrom(data, next, Apply(s, op))
  }

  const MAGIC: seq<Byte> := [0x52, 0x45, 0x44, 0x49, 0x53]  // "REDIS"
  const VERSION: seq<Byte> := [0x30, 0x30, 0x31, 0x31]  // "0011"

  lemma HeaderText()
    ensures MAGIC + VERSION == Ascii("REDIS0011")
  {
  }

  const EMPTY: Loading := Loading([], None, 0)

  ghost function Parsed(data: seq<Byte>): Result<seq<RDBEntry>> {
    if |data| < 9 || data[..5] != MAGIC then Err("invalid RDB header") else ParseFrom(data, 9, EMPTY)
  }

  // Terminates on any bytes, never outside of them.
  method ParseRDB(data: seq<Byte>) returns (r: Result<seq<RDBEntry>>)
    ensures r == Parsed(data)
  {
    if |data| < 9 {
      return Err("invalid RDB header");
    }
    if data[..5] != MAGIC {
      return Err("invalid RDB header");
    }
    var pos := 9;
    var entries: seq<RDBEntry> := [];
    var currentExpire: Option<int> := None;
    var estimatedSize := 0;
    while true
      invariant 9 <= pos <= |data| && estimatedSize >= 0
      invariant ParseFrom(data, pos, Loading(entries, currentExpire, estimatedSize)) == Parsed(data)
      decreases |data| - pos
    {
      hide ReadString;
      hide ReadLength;
      hide Parsed;
      ghost var before := Loading(entries, currentExpire, estimatedSize);
      ghost var op := ReadOp(data, pos);
      var b := ReadByte(data, pos);
      if b.Err? {
        return Err(b.message);
      }
      var p := b.value.1;
      if b.value.0 == 0xFA {
        var texts := ReadTexts(data, p);
        if texts.Err? {
          return Err(texts.message);
        }
        pos := texts.value.2;
      } else if b.value.0 == 0xFE {
        var db := ReadLength(data, p);
        if db.Err? {
          return Err(db.message);
        }
        pos := db.value.1;
      } else if b.value.0 == 0xFB {
        var keys := ReadLength(data, p);
        if keys.Err? {
          return Err(keys.message);
        }
        var expires := ReadLength(data, keys.value.1);
        if expires.Err? {
          return Err(expires.message);
        }
        var kvSize := HintOf(keys.value.0);
        if estimatedSize == 0 && kvSize > 0 && kvSize < MILLION {
          entries := [];
          estimatedSize := kvSize;
        }
        pos := expires.value.1;
      } else if b.value.0 == 0xFC {
        var buf := ReadN(data, p, 8);
        if buf.Err? {
          return Err(buf.message);
        }
        currentExpire := Some(Wrap(Wrap(Little(buf.value.0)) * MILLION));
        pos := buf.value.1;
      } else if b.value.0 == 0xFD {
        var buf := ReadN(data, p, 4);
        if buf.Err? {
          return Err(buf.message);
        }
        currentExpire := Some(Little(buf.value.0) * 1000 * MILLION);
        pos := buf.value.1;
      } else if b.value.0 == 0xFF {
        var checksum := ReadN(data, p, 8);
        if checksum.Err? {
          return Err(checksum.message);
        }
        return Ok(entries);
      } else {
        if b.value.0 != 0 {
          return Err("unsupported type");
        }
        var texts := ReadTexts(data, p);
        if texts.Err? {
          return Err(texts.message);
        }
        entries := entries + [RDBEntry(texts.value.0, texts.value.1, currentExpire)];
        currentExpire := None;
        pos := texts.value.2;
      }
      assert Loading(entries, currentExpire, estimatedSize) == Apply(before, op.value.0);
    }
  }

  // ---- writing ----

  function EncodeLength(n: nat): seq<Byte> {
    if n < 64 then [n]
    else if n < 16384 then [0x40 + n / 256, n % 256]
    else [0x80] + PutBig(n % TWO_32, 4)
  }

  function EncodeString(s: Text): seq<Byte> { EncodeLength(|s|) + s }

  // The lengths a writer produces.
  ghost predicate Writable(op: Op) {
    match op
    case Aux(name, info) => |name| < TWO_32 && |info| < TWO_32
    case Select(db) => db.Plain? && db.n < TWO_32
    case Resize(keys, expires) => keys.Plain? && keys.n < TWO_32 && expires.Plain? && expires.n < TWO_32
    case ExpireMs(ms) => ms < TWO_64
    case ExpireSec(secs) => secs < TWO_32
    case Pair(key, value) => |key| < TWO_32 && |value| < TWO_32
    case End => true
  }

  ghost function EncodeOp(op: Op): seq<Byte>
    requires Writable(op)
  {
    match op
    case Aux(name, info) => [0xFA] + EncodeString(name) + EncodeString(info)
    case Select(db) => [0xFE] + EncodeLength(db.n)
    case Resize(keys, expires) => [0xFB] + EncodeLength(keys.n) + EncodeLength(expires.n)
    case ExpireMs(ms) => [0xFC] + PutLittle(ms, 8)
    case ExpireSec(secs) => [0xFD] + PutLittle(secs, 4)
    case Pair(key, value) => [0] + EncodeString(key) + EncodeString(value)
    case End => [0xFF] + PutLittle(0, 8)
  }

  ghost predicate AllWritable(ops: seq<Op>) { forall i :: 0 <= i < |ops| ==> Writable(ops[i]) }

  ghost function EncodeOps(ops: seq<Op>): seq<Byte>
    requires AllWritable(ops)
  {
    if ops == [] then [] else EncodeOp(ops[0]) + EncodeOps(ops[1..])
  }

  ghost function Interpret(s: Loading, ops: seq<Op>): Loading
    decreases |ops|
  {
    if ops == [] then s else Interpret(Apply(s, ops[0]), ops[1..])
  }

  // ---- what was written is read back ----

  lemma {:induction false} MediumLength(data: seq<Byte>, pos: nat, n: nat)
    requires 64 <= n < 16384 && pos + 2 <= |data| && data[pos..pos + 2] == [0x40 + n / 256, n % 256]
    ensures ReadLength(data, pos) == Ok((Plain(n), pos + 2))
  {
    assert data[pos] == data[pos..pos + 2][0] && data[pos + 1] == data[pos..pos + 2][1];
  }

  lemma {:induction false} LongLength(data: seq<Byte>, pos: nat, n: nat)
    requires n < TWO_32 && pos + 5 <= |data| && data[pos..pos + 5] == [0x80] + PutBig(n, 4)
    ensures ReadLength(data, pos) == Ok((Plain(n), pos + 5))
  {
    Pow256Values();
    BigRoundTrip(n, 4);
    assert data[pos] == data[pos..pos + 5][0];
    assert data[pos + 1..pos + 5] == data[pos..pos + 5][1..5] == PutBig(n, 4);
  }

  lemma {:induction false} LengthRoundTrip(data: seq<Byte>, pos: nat, n: nat, rest: seq<Byte>)
    requires pos <= |data| && n < TWO_32 && data[pos..] == EncodeLength(n) + rest
    ensures ReadLength(data, pos) == Ok((Plain(n), pos + |EncodeLength(n)|))
  {
    Suffix(data, pos, EncodeLength(n), rest);
    if n < 64 {
      assert data[pos] == n;
    } else if n < 16384 {
      MediumLength(data, pos, n);
    } else {
      LongLength(data, pos, n);
    }
  }

  lemma StringRoundTrip(data: seq<Byte>, pos: nat, s: Text, rest: seq<Byte>)
    requires pos <= |data| && |s| < TWO_32 && data[pos..] == EncodeString(s) + rest
    ensures ReadString(data, pos) == Ok((s, pos + |EncodeString(s)|))
  {
    hide ReadLength;
    hide EncodeLength;
    var length := EncodeLength(|s|);
    assert data[pos..] == length + (s + rest);
    LengthRoundTrip(data, pos, |s|, s + rest);
    Suffix(data, pos, length, s + rest);
    Suffix(data, pos + |length|, s, rest);
  }

  lemma TextsRoundTrip(data: seq<Byte>, pos: nat, a: Text, b: Text, rest: seq<Byte>)
    requires pos <= |data| && |a| < TWO_32 && |b| < TWO_32 && data[pos..] == EncodeString(a) + EncodeString(b) + rest
    ensures ReadTexts(data, pos) == Ok((a, b, pos + |EncodeString(a)| + |EncodeString(b)|))
  {
    hide ReadString;
    hide EncodeString;
    assert data[pos..] == EncodeString(a) + (EncodeString(b) + rest);
    StringRoundTrip(data, pos, a, EncodeString(b) + rest);
    Suffix(data, pos, EncodeString(a), EncodeString(b) + rest);
    StringRoundTrip(data, pos + |EncodeString(a)|, b, rest);
  }

  // The integer encodings of one, two and four bytes read as the decimal text of the number.
  lemma IntRoundTrip(data: seq<Byte>, pos: nat, width: nat, v: int, rest: seq<Byte>)
    requires pos <= |data| && match width
                              case 1 => -0x80 <= v < 0x80
                              case 2 => -0x8000 <= v < 0x8000
                              case 4 => -0x8000_0000 <= v < 0x8000_0000
                              case _ => false
    requires data[pos..] == [if width == 1 then 0xC0 else if width == 2 then 0xC1 else 0xC2]
                            + PutLittle(v % Pow256(width), width) + rest
    ensures ReadString(data, pos) == Ok((Ascii(Itoa(v)), pos + 1 + width))
  {
    hide Itoa;
    hide Ascii;
    hide PutLittle;
    hide Little;
    var mark := if width == 1 then 0xC0 else if width == 2 then 0xC1 else 0xC2;
    var buf := PutLittle(v % Pow256(width), width);
    assert data[pos..] == [mark] + (buf + rest);
    Suffix(data, pos, [mark], buf + rest);
    Suffix(data, pos + 1, buf, rest);
    Pow256Values();
    assert Pow256(1) == 256 && Pow256(2) == 0x1_0000;
    LittleRoundTrip(v % Pow256(width), width);
    assert Signed(v % Pow256(width), Pow256(width) / 2) == v;
    assert ReadLength(data, pos) == Ok((Special(mark - 0xC0), pos + 1));
    assert ReadN(data, pos + 1, width) == Ok((buf, pos + 1 + width));
  }

  // There are no others: the compressed form and unknown ones are errors.
  lemma OtherEncodings(data: seq<Byte>, pos: nat)
    requires pos < |data| && data[pos] >= 0xC3
    ensures ReadString(data, pos).Err?
  {
    assert data[pos] / 64 == 3;
  }

  lemma OpRoundTrip(data: seq<Byte>, pos: nat, op: Op, rest: seq<Byte>)
    requires pos <= |data| && Writable(op) && data[pos..] == EncodeOp(op) + rest
    ensures ReadOp(data, pos) == Ok((op, pos + |EncodeOp(op)|)) && data[pos + |EncodeOp(op)|..] == rest
  {
    hide ReadOp;
    hide EncodeOp;
    Suffix(data, pos, EncodeOp(op), rest);
    match op
    case Aux(_, _) => TextsOp(data, pos, op, rest);
    case Pair(_, _) => TextsOp(data, pos, op, rest);
    case Select(_) => LengthsOp(data, pos, op, rest);
    case Resize(_, _) => LengthsOp(data, pos, op, rest);
    case _ => NumberOp(data, pos, op, rest);
  }

  // An opcode's byte, and what stands behind it.
  ghost function Mark(op: Op): Byte {
    match op
    case Aux(_, _) => 0xFA
    case Select(_) => 0xFE
    case Resize(_, _) => 0xFB
    case ExpireMs(_) => 0xFC
    case ExpireSec(_) => 0xFD
    case Pair(_, _) => 0
    case End => 0xFF
  }

  lemma MarkFirst(op: Op)
    requires Writable(op)
    ensures op.Aux? ==> EncodeOp(op) == [Mark(op)] + (EncodeString(op.name) + EncodeString(op.info))
    ensures op.Pair? ==> EncodeOp(op) == [Mark(op)] + (EncodeString(op.key) + EncodeString(op.value))
    ensures op.Select? ==> EncodeOp(op) == [Mark(op)] + EncodeLength(op.db.n)
    ensures op.Resize? ==> EncodeOp(op) == [Mark(op)] + (EncodeLength(op.keys.n) + EncodeLength(op.expires.n))
    ensures op.ExpireMs? ==> EncodeOp(op) == [Mark(op)] + PutLittle(op.ms, 8)
    ensures op.ExpireSec? ==> EncodeOp(op) == [Mark(op)] + PutLittle(op.secs, 4)
    ensures op.End? ==> EncodeOp(op) == [Mark(op)] + PutLittle(0, 8)
  {
    hide EncodeString;
    hide EncodeLength;
    hide PutLittle;
  }

  lemma TextsOp(data: seq<Byte>, pos: nat, op: Op, rest: seq<Byte>)
    requires pos <= |data| && Writable(op) && data[pos..] == EncodeOp(op) + rest && (op.Aux? || op.Pair?)
    ensures ReadOp(data, pos) == Ok((op, pos + |EncodeOp(op)|))
  {
    hide ReadTexts;
    hide EncodeString;
    hide EncodeOp;
    hide ReadOp;
    MarkFirst(op);
    var a, b := if op.Aux? then op.name else op.key, if op.Aux? then op.info else op.value;
    FirstByte(data, pos, EncodeString(a) + EncodeString(b), rest, Mark(op));
    TextsRoundTrip(data, pos + 1, a, b, rest);
    OpUnfolds(data, pos);
  }

  // The opcodes with strings and lengths behind them.
  lemma OpUnfolds(data: seq<Byte>, pos: nat)
    requires pos < |data|
    ensures data[pos] in {0xFA, 0} && ReadTexts(data, pos + 1).Ok? ==>
              var (a, b, q) := ReadTexts(data, pos + 1).value;
              ReadOp(data, pos) == Ok((if data[pos] == 0 then Pair(a, b) else Aux(a, b), q))
    ensures data[pos] == 0xFE && ReadLength(data, pos + 1).Ok? ==>
              var (db, q) := ReadLength(data, pos + 1).value;
              ReadOp(data, pos) == Ok((Select(db), q))
    ensures data[pos] == 0xFB && ReadLength(data, pos + 1).Ok? ==>
              var (keys, p) := ReadLength(data, pos + 1).value;
              ReadLength(data, p).Ok? ==>
                var (expires, q) := ReadLength(data, p).value;
                ReadOp(data, pos) == Ok((Resize(keys, expires), q))
  {
    hide ReadTexts;
    hide ReadLength;
    hide Little;
  }

  lemma LengthsOp(data: seq<Byte>, pos: nat, op: Op, rest: seq<Byte>)
    requires pos <= |data| && Writable(op) && data[pos..] == EncodeOp(op) + rest && (op.Select? || op.Resize?)
    ensures ReadOp(data, pos) == Ok((op, pos + |EncodeOp(op)|))
  {
    hide ReadLength;
    hide EncodeLength;
    hide EncodeOp;
    hide ReadOp;
    MarkFirst(op);
    var a := EncodeLength(if op.Select? then op.db.n else op.keys.n);
    var b := if op.Select? then [] else EncodeLength(op.expires.n);
    assert op.Select? ==> a + b == a;
    FirstByte(data, pos, a + b, rest, Mark(op));
    TwoLengths(data, pos + 1, op, a, b, rest);
    OpUnfolds(data, pos);
  }

  lemma TwoLengths(data: seq<Byte>, pos: nat, op: Op, a: seq<Byte>, b: seq<Byte>, rest: seq<Byte>)
    requires Writable(op) && (op.Select? || op.Resize?)
    requires a == EncodeLength(if op.Select? then op.db.n else op.keys.n)
    requires b == if op.Select? then [] else EncodeLength(op.expires.n)
    requires pos <= |data| && data[pos..] == a + b + rest
    ensures ReadLength(data, pos) == Ok((if op.Select? then op.db else op.keys, pos + |a|)) && pos + |a| <= |data|
    ensures op.Resize? ==> ReadLength(data, pos + |a|) == Ok((op.expires, pos + |a| + |b|))
  {
    hide ReadLength;
    hide EncodeLength;
    assert data[pos..] == a + (b + rest);
    LengthRoundTrip(data, pos, if op.Select? then op.db.n else op.keys.n, b + rest);
    Suffix(data, pos, a, b + rest);
    if op.Resize? {
      LengthRoundTrip(data, pos + |a|, op.expires.n, rest);
    }
  }

  lemma NumberOp(data: seq<Byte>, pos: nat, op: Op, rest: seq<Byte>)
    requires pos <= |data| && Writable(op) && data[pos..] == EncodeOp(op) + rest
    requires op.ExpireMs? || op.ExpireSec? || op.End?
    ensures ReadOp(data, pos) == Ok((op, pos + |EncodeOp(op)|))
  {
    hide PutLittle;
    hide Little;
    hide EncodeOp;
    hide ReadTexts;
    hide ReadLength;
    Pow256Values();
    MarkFirst(op);
    var width := if op.ExpireSec? then 4 else 8;
    var n := if op.ExpireMs? then op.ms else if op.ExpireSec? then op.secs else 0;
    FirstByte(data, pos, PutLittle(n, width), rest, Mark(op));
    Suffix(data, pos + 1, PutLittle(n, width), rest);
    LittleRoundTrip(n, width);
  }

  lemma FirstByte(data: seq<Byte>, pos: nat, x: seq<Byte>, rest: seq<Byte>, b: Byte)
    requires pos <= |data| && data[pos..] == ([b] + x) + rest
    ensures pos < |data| && data[pos] == b && data[pos + 1..] == x + rest
  {
    Suffix(data, pos, [b] + x, rest);
    assert data[pos..] == [b] + (x + rest);
    Suffix(data, pos, [b], x + rest);
  }

  // The parser reads any list of opcodes as it was written, and does with it what the opcodes mean.
  lemma {:induction false} OpsRoundTrip(data: seq<Byte>, pos: nat, ops: seq<Op>, s: Loading)
    requires pos <= |data| && AllWritable(ops) && data[pos..] == EncodeOps(ops) + EncodeOp(End) && End !in ops
    ensures ParseFrom(data, pos, s) == Ok(Interpret(s, ops).entries)
    decreases |ops|
  {
    hide ReadOp;
    hide EncodeOp;
    if ops == [] {
      assert data[pos..] == EncodeOp(End) + [];
      OpRoundTrip(data, pos, End, []);
    } else {
      var rest := EncodeOps(ops[1..]) + EncodeOp(End);
      assert data[pos..] == EncodeOp(ops[0]) + rest;
      assert ops[0] in ops;
      OpRoundTrip(data, pos, ops[0], rest);
      OpsRoundTrip(data, pos + |EncodeOp(ops[0])|, ops[1..], Apply(s, ops[0]));
    }
  }

  lemma FileRoundTrip(ops: seq<Op>)
    requires AllWritable(ops) && End !in ops
    ensures Parsed(MAGIC + VERSION + EncodeOps(ops) + EncodeOp(End)) == Ok(Interpret(EMPTY, ops).entries)
  {
    hide ParseFrom;
    hide EncodeOp;
    var data := MAGIC + VERSION + EncodeOps(ops) + EncodeOp(End);
    assert data[..5] == MAGIC;
    assert data[9..] == EncodeOps(ops) + EncodeOp(End);
    OpsRoundTrip(data, 9, ops, EMPTY);
  }

  // A hint that comes after an entry makes the parser forget the entry.
  lemma LateHintForgets()
    ensures Interpret(EMPTY, [Pair([1], [2]), Resize(Plain(1), Plain(0))]).entries == []
  {
    var ops := [Pair([1], [2]), Resize(Plain(1), Plain(0))];
    assert ops[1..] == [Resize(Plain(1), Plain(0))] && ops[1..][1..] == [];
  }

  // What the pairs say when no hint interferes: each with the expiry since the pair before it.
  ghost function Pairs(ops: seq<Op>, expire: Option<int>): seq<RDBEntry>
    decreases |ops|
  {
    if ops == [] then []
    else
      match ops[0]
      case Pair(key, value) => [RDBEntry(key, value, expire)] + Pairs(ops[1..], None)
      case ExpireMs(ms) => Pairs(ops[1..], Some(Wrap(Wrap(ms) * MILLION)))
      case ExpireSec(secs) => Pairs(ops[1..], Some(secs * 1000 * MILLION))
      case _ => Pairs(ops[1..], expire)
  }

  // The first hint that counts comes only after a pair.
  ghost predicate LateHint(ops: seq<Op>, seen: bool)
    decreases |ops|
  {
    ops != [] &&
    match ops[0]
    case Pair(_, _) => LateHint(ops[1..], true)
    case Resize(keys, _) => if keys.Plain? && 0 < keys.n < 1000000 then seen else LateHint(ops[1..], seen)
    case _ => LateHint(ops[1..], seen)
  }

  lemma {:induction false} InterpretGrows(s: Loading, ops: seq<Op>)
    requires s.estimatedSize > 0
    ensures Interpret(s, ops).entries == s.entries + Pairs(ops, s.currentExpire)
    decreases |ops|
  {
    if ops == [] {
      assert s.entries + [] == s.entries;
    } else {
      InterpretGrows(Apply(s, ops[0]), ops[1..]);
      if ops[0].Pair? {
        assert s.entries + Pairs(ops, s.currentExpire)
            == (s.entries + [RDBEntry(ops[0].key, ops[0].value, s.currentExpire)]) + Pairs(ops[1..], None);
      }
    }
  }

  lemma {:induction false} InterpretIs(s: Loading, ops: seq<Op>)
    requires s.estimatedSize == 0
    ensures Interpret(s, ops).entries == s.entries + Pairs(ops, s.currentExpire) <==> !LateHint(ops, s.entries != [])
    decreases |ops|
  {
    if ops == [] {
      assert s.entries + [] == s.entries;
    } else {
      var s1 := Apply(s, ops[0]);
      match ops[0]
      case Pair(key, value) =>
        InterpretIs(s1, ops[1..]);
        assert s.entries + Pairs(ops, s.currentExpire) == s1.entries + Pairs(ops[1..], None);
      case Resize(keys, _) =>
        if 0 < HintOf(keys) < MILLION {
          InterpretGrows(s1, ops[1..]);
          assert s1.entries == [] && |s.entries + Pairs(ops, s.currentExpire)|
                 == |s.entries| + |Pairs(ops[1..], s.currentExpire)|;
        } else {
          InterpretIs(s1, ops[1..]);
        }
      case _ => InterpretIs(s1, ops[1..]);
    }
  }

  // A file gives exactly its pairs, each with its own expiry, if and only if no hint comes late.
  lemma FileHoldsPairs(ops: seq<Op>)
    requires AllWritable(ops) && End !in ops
    ensures Parsed(MAGIC + VERSION + EncodeOps(ops) + EncodeOp(End)) == Ok(Pairs(ops, None)) <==> !LateHint(ops, false)
  {
    hide Parsed;
    FileRoundTrip(ops);
    InterpretIs(EMPTY, ops);
    assert [] + Pairs(ops, None) == Pairs(ops, None);
  }

  // ---- dumps ----

  // time.UnixMilli rounds down.
  function FloorMs(t: int): int { if t >= 0 then t / MILLION else -((-t + MILLION - 1) / MILLION) }

  ghost function OpsOf(e: RDBEntry, now: int): seq<Op> {
    (if e.expireAt.Some? && e.expireAt.value > now then [ExpireMs(FloorMs(e.expireAt.value) % TWO_64)] else [])
    + [Pair(e.key, e.value)]
  }

  ghost function AllOpsOf(es: seq<RDBEntry>, now: int): seq<Op> {
    if es == [] then [] else OpsOf(es[0], now) + AllOpsOf(es[1..], now)
  }

  // What the store ranges over.  Foreign objects lack the methods Get and GetTTL that the writer asks for;
  // an object without text does not hold a string.
  datatype Item = Foreign | Object(key: Text, text: Option<Text>, ttl: Option<int>)

  // The methods with their results that the writer's type assertion asks for, and those of the objects in the
  // store (internal/datastructure/valuetype.go:12-28).
  datatype Method = Method(name: string, result: string)

  const ASKED: set<Method> := {Method("Get", "interface{}"), Method("GetTTL", "*time.Time")}
  const OFFERED: set<Method> := {Method("SetExpiry", ""), Method("Get", "RValue")}

  // What the writer sees of an object with these methods.
  function Seen(methods: set<Method>, key: string, o: Evictions.Obj): Item {
    if !(ASKED <= methods) then Foreign
    else Object(Ascii(key), if o.value.Text? then Some(Ascii(o.value.text)) else None, o.ttl)
  }

  function SeenAll(methods: set<Method>, objects: seq<(string, Evictions.Obj)>): seq<Item> {
    seq(|objects|, i requires 0 <= i < |objects| => Seen(methods, objects[i].0, objects[i].1))
  }

  // Written: has the methods, has not expired, holds a string.
  ghost predicate Lasts(o: Item, now: int) { o.Object? && (o.ttl.None? || o.ttl.value >= now) && o.text.Some? }

  ghost function EntryOf(o: Item): RDBEntry
    requires o.Object? && o.text.Some?
  {
    RDBEntry(o.key, o.text.value, o.ttl)
  }

  ghost function Kept(all: seq<Item>, now: int): seq<RDBEntry> {
    if all == [] then [] else (if Lasts(all[0], now) then [EntryOf(all[0])] else []) + Kept(all[1..], now)
  }

  // Passes the type assertion, has no expiry or one that has not passed, and holds a string.
  ghost predicate Dumped(o: Item, now: int) {
    o.Object? && (o.ttl == None || now <= o.ttl.value) && o.text.Some?
  }

  // Nothing of the store is missing from the file if and only if every object passes the three tests.
  lemma {:induction false} NothingMissing(all: seq<Item>, now: int)
    ensures |Kept(all, now)| <= |all|
    ensures |Kept(all, now)| == |all| <==> forall i :: 0 <= i < |all| ==> Dumped(all[i], now)
  {
    if all != [] {
      NothingMissing(all[1..], now);
      assert all == [all[0]] + all[1..];
    }
  }

  // The file has the objects that pass, in order, each with its key, text and expiry.
  lemma KeptFirst(o: Item, rest: seq<Item>, now: int)
    ensures Kept([o] + rest, now)
         == (if Dumped(o, now) then [RDBEntry(o.key, o.text.value, o.ttl)] else []) + Kept(rest, now)
  {
    assert ([o] + rest)[1..] == rest;
  }

  // For objects of a store, whatever methods they have.
  lemma {:induction false} StoreMissing(methods: set<Method>, objects: seq<(string, Evictions.Obj)>, now: int)
    ensures |Kept(SeenAll(methods, objects), now)| == |objects| <==>
            forall i :: 0 <= i < |objects| ==>
              var o := objects[i].1;
              Method("Get", "interface{}") in methods && Method("GetTTL", "*time.Time") in methods
              && o.value.Text? && (o.ttl == None || now <= o.ttl.value)
  {
    var all := SeenAll(methods, objects);
    NothingMissing(all, now);
    forall i | 0 <= i < |objects|
      ensures all[i] == Seen(methods, objects[i].0, objects[i].1)
    {
    }
  }

  // And what the writer sees of one that has them is its key, its text and its expiry.
  lemma SeenWhole(methods: set<Method>, key: string, text: string, ttl: Option<int>, now: int)
    requires Method("Get", "interface{}") in methods && Method("GetTTL", "*time.Time") in methods
    requires ttl == None || now <= ttl.value
    ensures Kept(SeenAll(methods, [(key, Evictions.Obj(Evictions.Text(text), ttl))]), now)
         == [RDBEntry(Ascii(key), Ascii(text), ttl)]
  {
    var all := SeenAll(methods, [(key, Evictions.Obj(Evictions.Text(text), ttl))]);
    assert all == [all[0]] + [];
    KeptFirst(all[0], [], now);
  }

  ghost function DumpOps(es: seq<RDBEntry>, now: int): seq<Op> {
    [Select(Plain(0))] + (if es == [] then [] else [Resize(Plain(|es|), Plain(0))]) + AllOpsOf(es, now)
  }

  ghost predicate Short(es: seq<RDBEntry>) {
    |es| < TWO_32 && forall i :: 0 <= i < |es| ==> |es[i].key| < TWO_32 && |es[i].value| < TWO_32
  }

  // An expiry survives when it lies in the future, is a whole number of milliseconds, and its nanoseconds
  // fit 64 bits.
  ghost predicate ExpiryKept(e: RDBEntry, now: int) {
    e.expireAt.None? ||
    (e.expireAt.value > now && e.expireAt.value % MILLION == 0 && -TWO_63 <= e.expireAt.value < TWO_63)
  }

  // What becomes of an entry.
  ghost function Restored(e: RDBEntry, now: int): RDBEntry {
    e.(expireAt := if e.expireAt.Some? && e.expireAt.value > now
                   then Some(Wrap(FloorMs(e.expireAt.value) * MILLION)) else None)
  }

  lemma WrapTimes(ms: int)
    ensures Wrap(Wrap(ms % TWO_64) * MILLION) == Wrap(ms * MILLION)
  {
    var k := (ms - Wrap(ms % TWO_64)) / TWO_64;
    assert ms == Wrap(ms % TWO_64) + k * TWO_64;
    assert ms * MILLION == Wrap(ms % TWO_64) * MILLION + (k * MILLION) * TWO_64;
    WrapShift(Wrap(ms % TWO_64) * MILLION, k * MILLION);
  }

  lemma {:induction false} WrapShift(n: int, k: int)
    ensures Wrap(n + k * TWO_64) == Wrap(n)
    decreases if k < 0 then -k else k
  {
    if k > 0 {
      WrapShift(n, k - 1);
    } else if k < 0 {
      WrapShift(n, k + 1);
    }
  }

  lemma RestoredIsSame(e: RDBEntry, now: int)
    ensures Restored(e, now) == e <==> ExpiryKept(e, now)
  {
    if e.expireAt.Some? && e.expireAt.value > now {
      var t := e.expireAt.value;
      var f := FloorMs(t) * MILLION;
      assert f <= t < f + MILLION;
      assert f == t <==> t % MILLION == 0;
    }
  }

  // In numbers: an expiry in the past is dropped, and one in the future rounded down to milliseconds.
  lemma RestoredExpiry(e: RDBEntry, now: int)
    ensures Restored(e, now).key == e.key && Restored(e, now).value == e.value
    ensures e.expireAt.None? || e.expireAt.value <= now ==> Restored(e, now).expireAt == None
    ensures e.expireAt.Some? && e.expireAt.value > now && -TWO_63 + MILLION <= e.expireAt.value < TWO_63 ==>
              var t, r := e.expireAt.value, Restored(e, now).expireAt;
              r.Some? && r.value % 1000000 == 0 && r.value <= t < r.value + 1000000
  {
    if e.expireAt.Some? {
      var f := FloorMs(e.expireAt.value) * MILLION;
      assert f <= e.expireAt.value < f + MILLION;
    }
  }

  lemma PairsOfEntry(e: RDBEntry, now: int, rest: seq<Op>)
    ensures Pairs(OpsOf(e, now) + rest, None) == [Restored(e, now)] + Pairs(rest, None)
  {
    var ops := OpsOf(e, now) + rest;
    if e.expireAt.Some? && e.expireAt.value > now {
      var ms := FloorMs(e.expireAt.value);
      WrapTimes(ms);
      assert ops[1..] == [Pair(e.key, e.value)] + rest;
      assert ops[1..][1..] == rest;
    } else {
      assert ops[1..] == rest;
    }
  }

  ghost function AllRestored(es: seq<RDBEntry>, now: int): (r: seq<RDBEntry>)
    ensures |r| == |es|
  {
    seq(|es|, i requires 0 <= i < |es| => Restored(es[i], now))
  }

  lemma {:induction false} DumpPairs(es: seq<RDBEntry>, now: int)
    requires Short(es)
    ensures Pairs(AllOpsOf(es, now), None) == AllRestored(es, now)
    ensures AllWritable(AllOpsOf(es, now)) && End !in AllOpsOf(es, now)
    ensures forall seen :: !LateHint(AllOpsOf(es, now), seen)
  {
    if es != [] {
      DumpPairs(es[1..], now);
      PairsOfEntry(es[0], now, AllOpsOf(es[1..], now));
      assert AllRestored(es, now) == [Restored(es[0], now)] + AllRestored(es[1..], now);
      NoHints(es[0], now, AllOpsOf(es[1..], now));
    }
  }

  lemma NoHints(e: RDBEntry, now: int, rest: seq<Op>)
    requires forall seen :: !LateHint(rest, seen)
    ensures forall seen :: !LateHint(OpsOf(e, now) + rest, seen)
  {
    var ops := OpsOf(e, now) + rest;
    forall seen ensures !LateHint(ops, seen) {
      if e.expireAt.Some? && e.expireAt.value > now {
        assert ops[1..] == [Pair(e.key, e.value)] + rest && ops[1..][1..] == rest;
        assert LateHint(ops, seen) == LateHint(ops[1..], seen) == LateHint(rest, true);
      } else {
        assert ops[1..] == rest;
      }
    }
  }

  ghost function Dump(es: seq<RDBEntry>, now: int): seq<Byte>
    requires Short(es)
  {
    DumpPairs(es, now);
    MAGIC + VERSION + EncodeOps(DumpOps(es, now)) + EncodeOp(End)
  }

  // A dump restores its entries in order, each with its own expiry; it restores them unchanged if and only
  // if every expiry is one that survives.
  lemma DumpRoundTrip(es: seq<RDBEntry>, now: int)
    requires Short(es)
    ensures Parsed(Dump(es, now)) == Ok(AllRestored(es, now))
    ensures Parsed(Dump(es, now)) == Ok(es) <==> forall i :: 0 <= i < |es| ==> ExpiryKept(es[i], now)
  {
    hide Parsed;
    hide EncodeOps;
    hide DumpOps;
    hide Restored;
    hide ExpiryKept;
    DumpOpsPairs(es, now);
    FileHoldsPairs(DumpOps(es, now));
    forall i | 0 <= i < |es| ensures AllRestored(es, now)[i] == es[i] <==> ExpiryKept(es[i], now) {
      RestoredIsSame(es[i], now);
    }
    SamePointwise(AllRestored(es, now), es);
  }

  // The harm: whatever the store holds, the assertion fails for every object, and the dump restores nothing.
  lemma StoreIsLost(objects: seq<(string, Evictions.Obj)>, now: int)
    ensures var kept := Kept(SeenAll(OFFERED, objects), now);
            kept == [] && Parsed(Dump(kept, now)) == Ok([])
  {
    assert Method("GetTTL", "*time.Time") in ASKED && Method("GetTTL", "*time.Time") !in OFFERED;
    NothingKept(SeenAll(OFFERED, objects), now);
    DumpRoundTrip([], now);
  }

  lemma {:induction false} NothingKept(all: seq<Item>, now: int)
    requires forall i :: 0 <= i < |all| ==> all[i].Foreign?
    ensures Kept(all, now) == []
  {
    if all != [] {
      NothingKept(all[1..], now);
    }
  }

  lemma SamePointwise<T>(a: seq<T>, b: seq<T>)
    requires |a| == |b|
    ensures a == b <==> forall i :: 0 <= i < |a| ==> a[i] == b[i]
  {
  }

  lemma DumpOpsPairs(es: seq<RDBEntry>, now: int)
    requires Short(es)
    ensures var ops := DumpOps(es, now);
            && AllWritable(ops) && End !in ops
            && Pairs(ops, None) == AllRestored(es, now) && !LateHint(ops, false)
  {
    hide AllOpsOf;
    DumpPairs(es, now);
    var all, ops := AllOpsOf(es, now), DumpOps(es, now);
    var rest := if es == [] then all else [Resize(Plain(|es|), Plain(0))] + all;
    assert ops == [Select(Plain(0))] + rest;
    PassOver(Select(Plain(0)), rest);
    if es != [] {
      PassOver(Resize(Plain(|es|), Plain(0)), all);
    }
  }

  // Opcodes in front that neither hold a pair nor set an expiry.
  lemma PassOver(op: Op, rest: seq<Op>)
    requires (op.Select? || op.Resize?) && Writable(op) && AllWritable(rest) && End !in rest
    ensures AllWritable([op] + rest) && End !in [op] + rest
    ensures Pairs([op] + rest, None) == Pairs(rest, None)
    ensures !LateHint(rest, false) ==> !LateHint([op] + rest, false)
  {
    hide Writable;
    var ops := [op] + rest;
    assert ops[0] == op && ops[1..] == rest;
    assert forall o :: o in ops ==> o == op || o in rest;
  }

  // ---- the writer ----

  lemma EntryBytes(e: RDBEntry, now: int)
    requires |e.key| < TWO_32 && |e.value| < TWO_32
    ensures AllWritable(OpsOf(e, now))
    ensures EncodeOps(OpsOf(e, now))
         == (if e.expireAt.Some? && e.expireAt.value > now
             then [0xFC] + PutLittle(FloorMs(e.expireAt.value) % TWO_64, 8) else [])
            + ([0] + EncodeString(e.key) + EncodeString(e.value))
  {
    hide EncodeString;
    hide PutLittle;
    hide FloorMs;
    var pair := [Pair(e.key, e.value)];
    OneOp(pair[0]);
    if e.expireAt.Some? && e.expireAt.value > now {
      var ops := [ExpireMs(FloorMs(e.expireAt.value) % TWO_64)];
      OneOp(ops[0]);
      OpsConcat(ops, pair);
    } else {
      assert OpsOf(e, now) == pair;
    }
  }

  class RdbWriter {
    var data: seq<Byte>

    constructor ()
      ensures data == []
    {
      data := [];
    }

    method WriteByte(b: Byte)
      modifies this
      ensures data == old(data) + [b]
    {
      data := data + [b];
    }

    method WriteBytes(b: seq<Byte>)
      modifies this
      ensures data == old(data) + b
    {
      data := data + b;
    }

    method WriteLength(length: nat)
      modifies this
      ensures data == old(data) + EncodeLength(length)
    {
      if length < 64 {
        WriteByte(length);
      } else if length < 16384 {
        WriteByte(0x40 + length / 256);
        WriteByte(length % 256);
      } else {
        WriteByte(0x80);
        WriteBytes(PutBig(length % TWO_32, 4));
      }
    }

    method WriteString(s: Text)
      modifies this
      ensures data == old(data) + EncodeString(s)
    {
      WriteLength(|s|);
      WriteBytes(s);
    }

    method WriteEntry(e: RDBEntry, now: int)
      requires |e.key| < TWO_32 && |e.value| < TWO_32
      modifies this
      ensures AllWritable(OpsOf(e, now)) && data == old(data) + EncodeOps(OpsOf(e, now))
    {
      hide EncodeString;
      hide EncodeOps;
      hide OpsOf;
      hide PutLittle;
      hide FloorMs;
      EntryBytes(e, now);
      if e.expireAt.Some? && e.expireAt.value > now {
        WriteByte(0xFC);
        var expiryMs := FloorMs(e.expireAt.value) % TWO_64;
        WriteBytes(PutLittle(expiryMs, 8));
        assert data == old(data) + ([0xFC] + PutLittle(expiryMs, 8));
      }
      WriteByte(0);
      WriteString(e.key);
      WriteString(e.value);
    }

    method WriteEntries(entries: seq<RDBEntry>, now: int)
      requires Short(entries) && AllWritable(AllOpsOf(entries, now))
      modifies this
      ensures data == old(data) + EncodeOps(AllOpsOf(entries, now))
    {
      hide OpsOf;
      hide EncodeOps;
      assert entries[0..] == entries;
      for i := 0 to |entries|
        invariant AllWritable(AllOpsOf(entries[i..], now))
        invariant data + EncodeOps(AllOpsOf(entries[i..], now)) == old(data) + EncodeOps(AllOpsOf(entries, now))
      {
        ghost var before := data;
        ghost var rest := AllOpsOf(entries[i + 1..], now);
        assert entries[i..][0] == entries[i] && entries[i..][1..] == entries[i + 1..];
        OpsConcat(OpsOf(entries[i], now), rest);
        WriteEntry(entries[i], now);
        assert before + (EncodeOps(OpsOf(entries[i], now)) + EncodeOps(rest)) == data + EncodeOps(rest);
      }
      NoOps();
      assert AllOpsOf(entries[|entries|..], now) == [];
    }

    method WriteZeros(n: nat)
      modifies this
      ensures data == old(data) + PutLittle(0, n)
    {
      hide PutLittle;
      ZerosGrow(0);
      for i := 0 to n
        invariant data == old(data) + PutLittle(0, i)
      {
        ZerosGrow(i);
        WriteByte(0);
      }
    }
  }

  method GenerateRDB(all: seq<Item>, now: int) returns (data: seq<Byte>)
    requires Short(Kept(all, now))
    ensures data == Dump(Kept(all, now), now)
  {
    hide EncodeLength;
    hide EncodeOps;
    hide DumpOps;
    hide AllOpsOf;
    hide PutLittle;
    hide Kept;
    hide Short;
    hide AllWritable;
    var w := new RdbWriter();
    w.WriteBytes(MAGIC + VERSION);
    w.WriteByte(0xFE);
    w.WriteByte(0);
    var entries := Collect(all, now);
    ghost var hint: seq<Byte> := if entries == [] then [] else [0xFB] + EncodeLength(|entries|) + EncodeLength(0);
    if |entries| > 0 {
      w.WriteByte(0xFB);
      w.WriteLength(|entries|);
      w.WriteLength(0);
    }
    assert w.data == MAGIC + VERSION + ([0xFE, 0] + hint);
    DumpHead(entries, now);
    w.WriteEntries(entries, now);
    assert w.data == MAGIC + VERSION + EncodeOps(DumpOps(entries, now));
    w.WriteByte(0xFF);
    w.WriteZeros(8);
    return w.data;
  }

  method Collect(all: seq<Item>, now: int) returns (entries: seq<RDBEntry>)
    ensures entries == Kept(all, now)
  {
    entries := [];
    for i := 0 to |all|
      invariant entries + Kept(all[i..], now) == Kept(all, now)
    {
      assert all[i..][0] == all[i] && all[i..][1..] == all[i + 1..];
      ghost var before := entries;
      var o := all[i];
      if o.Object? && !(o.ttl.Some? && o.ttl.value < now) && o.text.Some? {
        entries := entries + [RDBEntry(o.key, o.text.value, o.ttl)];
        assert before + ([EntryOf(o)] + Kept(all[i + 1..], now)) == entries + Kept(all[i + 1..], now);
      }
    }
  }

  lemma WritableParts(a: seq<Op>, b: seq<Op>)
    requires AllWritable(a + b)
    ensures AllWritable(a) && AllWritable(b)
  {
    hide Writable;
    assert forall i :: 0 <= i < |a| ==> a[i] == (a + b)[i];
    assert forall i :: 0 <= i < |b| ==> b[i] == (a + b)[|a| + i];
  }

  lemma {:induction false} OpsConcat(a: seq<Op>, b: seq<Op>)
    requires AllWritable(a + b)
    ensures AllWritable(a) && AllWritable(b) && EncodeOps(a + b) == EncodeOps(a) + EncodeOps(b)
  {
    hide Writable;
    hide EncodeOp;
    WritableParts(a, b);
    if a == [] {
      assert a + b == b;
    } else {
      assert (a + b)[1..] == a[1..] + b;
      OpsConcat(a[1..], b);
    }
  }

  lemma NoOps()
    ensures EncodeOps([]) == []
  {
  }

  lemma {:induction false} ZerosGrow(n: nat)
    ensures PutLittle(0, 0) == []
    ensures PutLittle(0, n + 1) == PutLittle(0, n) + [0]
  {
    if n > 0 {
      ZerosGrow(n - 1);
    }
  }

  // The bytes in front of the entries.
  lemma DumpHead(es: seq<RDBEntry>, now: int)
    requires Short(es)
    ensures AllWritable(AllOpsOf(es, now)) && AllWritable(DumpOps(es, now))
    ensures EncodeOps(DumpOps(es, now))
         == [0xFE, 0] + (if es == [] then [] else [0xFB] + EncodeLength(|es|) + EncodeLength(0))
           + EncodeOps(AllOpsOf(es, now))
  {
    hide AllOpsOf;
    hide EncodeOps;
    DumpPairs(es, now);
    DumpOpsPairs(es, now);
    var all := AllOpsOf(es, now);
    var select, hint := [Select(Plain(0))], [Resize(Plain(|es|), Plain(0))];
    OneOp(select[0]);
    if es == [] {
      assert DumpOps(es, now) == select + all;
      OpsConcat(select, all);
    } else {
      OneOp(hint[0]);
      assert DumpOps(es, now) == select + (hint + all);
      OpsConcat(select, hint + all);
      OpsConcat(hint, all);
    }
  }

  lemma OneOp(op: Op)
    requires Writable(op)
    ensures EncodeOps([op]) == EncodeOp(op)
  {
    assert [op][1..] == [];
  }
}
