/** The list pack (internal/datastructure/listpack.go): entries packed into one byte buffer, each behind
    a varint length, with an index of where they start. */
module ListPacks {
  import opened Bytes

  // One entry as it lies in the buffer.  Entries the list pack writes itself have the shortest possible
  // head, but bytes from elsewhere may hold a longer one.
  datatype Cell = Cell(head: seq<Byte>, body: seq<Byte>)

  ghost predicate CellOk(c: Cell) {
    |c.body| < TWO_63 && |c.head| > 0 && Uvarint(c.head) == (|c.body|, |c.head|)
  }

  ghost predicate CellsOk(cells: seq<Cell>) {
    forall i :: 0 <= i < |cells| ==> CellOk(cells[i])
  }

  ghost function Flat(cells: seq<Cell>): seq<Byte> {
    if cells == [] then [] else cells[0].head + cells[0].body + Flat(cells[1..])
  }

  // Where the entries start, the first one at position `from`.
  ghost function Starts(cells: seq<Cell>, from: int): (s: seq<int>)
    ensures |s| == |cells|
  {
    if cells == [] then [] else [from] + Starts(cells[1..], from + |cells[0].head| + |cells[0].body|)
  }

  ghost function Bodies(cells: seq<Cell>): (s: seq<seq<Byte>>)
    ensures |s| == |cells|
  {
    seq(|cells|, i requires 0 <= i < |cells| => cells[i].body)
  }

  function EncodeEntry(payload: seq<Byte>): seq<Byte> {
    PutUvarint(|payload|) + payload
  }

  ghost function NewCell(payload: seq<Byte>): Cell { Cell(PutUvarint(|payload|), payload) }

  lemma NewCellOk(payload: seq<Byte>)
    requires |payload| < TWO_63
    ensures CellOk(NewCell(payload))
  {
    UvarintRoundTrip(|payload|, []);
  }

  // ---- how the buffer and the index split ----

  lemma {:induction false} FlatConcat(a: seq<Cell>, b: seq<Cell>)
    ensures Flat(a + b) == Flat(a) + Flat(b)
  {
    if a == [] {
      assert a + b == b;
    } else {
      assert (a + b)[1..] == a[1..] + b;
      FlatConcat(a[1..], b);
    }
  }

  lemma {:induction false} StartsConcat(a: seq<Cell>, b: seq<Cell>, from: int)
    ensures Starts(a + b, from) == Starts(a, from) + Starts(b, from + |Flat(a)|)
  {
    if a == [] {
      assert a + b == b;
    } else {
      assert (a + b)[1..] == a[1..] + b;
      StartsConcat(a[1..], b, from + |a[0].head| + |a[0].body|);
    }
  }

  ghost function Moved(s: seq<int>, n: int): (r: seq<int>)
    ensures |r| == |s|
  {
    seq(|s|, i requires 0 <= i < |s| => s[i] + n)
  }

  lemma {:induction false} StartsMoved(cells: seq<Cell>, from: int, n: int)
    ensures Starts(cells, from + n) == Moved(Starts(cells, from), n)
  {
    if cells != [] {
      var next := from + |cells[0].head| + |cells[0].body|;
      StartsMoved(cells[1..], next, n);
      assert next + n == from + n + |cells[0].head| + |cells[0].body|;
    }
  }

  // The buffer around entry i.
  lemma FlatAround(cells: seq<Cell>, i: nat)
    requires i < |cells|
    ensures Flat(cells) == Flat(cells[..i]) + (cells[i].head + cells[i].body) + Flat(cells[i + 1..])
  {
    assert cells == cells[..i] + cells[i..] && cells[i..][1..] == cells[i + 1..];
    FlatConcat(cells[..i], cells[i..]);
  }

  lemma StartsAround(cells: seq<Cell>, i: nat)
    requires i < |cells|
    ensures var from := |Flat(cells[..i])|;
            && Starts(cells, 0)[i] == from
            && Starts(cells, 0) == Starts(cells[..i], 0) + [from]
                                   + Starts(cells[i + 1..], from + |cells[i].head| + |cells[i].body|)
  {
    hide Flat;
    assert cells == cells[..i] + cells[i..] && cells[i..][1..] == cells[i + 1..];
    StartsConcat(cells[..i], cells[i..], 0);
  }

  // What the decoder finds at the start of entry i.
  lemma ReadsEntry(cells: seq<Cell>, i: nat)
    requires CellsOk(cells) && i < |cells|
    ensures 0 <= Starts(cells, 0)[i] < |Flat(cells)|
    ensures Uvarint(Flat(cells)[Starts(cells, 0)[i]..]) == (|cells[i].body|, |cells[i].head|)
    ensures Starts(cells, 0)[i] + |cells[i].head| + |cells[i].body| <= |Flat(cells)|
    ensures var from := Starts(cells, 0)[i] + |cells[i].head|;
            Flat(cells)[from..from + |cells[i].body|] == cells[i].body
  {
    hide Flat;
    hide Starts;
    hide Uvarint;
    FlatAround(cells, i);
    StartsAround(cells, i);
    assert CellOk(cells[i]);
    ReadsCell(Flat(cells[..i]), cells[i], Flat(cells[i + 1..]));
  }

  lemma ReadsCell(a: seq<Byte>, c: Cell, z: seq<Byte>)
    requires CellOk(c)
    ensures var s, from := a + (c.head + c.body) + z, |a| + |c.head|;
            && |a| < |s| && Uvarint(s[|a|..]) == (|c.body|, |c.head|)
            && from + |c.body| <= |s| && s[from..from + |c.body|] == c.body
  {
    hide Uvarint;
    var s := a + (c.head + c.body) + z;
    assert s[|a|..] == c.head + (c.body + z);
    UvarintPrefix(c.head, c.body + z);
  }

  class ListPack {
    var data: seq<Byte>
    var offsets: seq<int>
    ghost var cells: seq<Cell>

    ghost predicate Valid()
      reads this
    {
      CellsOk(cells) && data == Flat(cells) && offsets == Starts(cells, 0)
    }

    // The payloads, in order: what the list pack means.
    ghost function Contents(): seq<seq<Byte>>
      reads this
    {
      Bodies(cells)
    }

    constructor ()
      ensures Valid() && Contents() == [] && data == []
    {
      data := [];
      offsets := [];
      cells := [];
    }

    method Len() returns (n: int)
      requires Valid()
      ensures n == |Contents()|
    {
      n := |offsets|;
    }

    // A Go slice never has 2^63 elements or more.
    method Append(payload: seq<Byte>)
      requires Valid() && |payload| < TWO_63
      modifies this
      ensures Valid() && Contents() == old(Contents()) + [payload]
      ensures data == old(data) + EncodeEntry(payload)
    {
      AppendEncoded(EncodeEntry(payload), NewCell(payload));
    }

    method AppendEncoded(entry: seq<Byte>, ghost c: Cell)
      requires Valid() && entry == EncodeEntry(c.body) && c == NewCell(c.body) && |c.body| < TWO_63
      modifies this
      ensures Valid() && cells == old(cells) + [c] && Contents() == old(Contents()) + [c.body]
      ensures data == old(data) + entry
    {
      var start := |data|;
      data := data + entry;
      offsets := offsets + [start];
      NewCellOk(c.body);
      FlatConcat(cells, [c]);
      StartsConcat(cells, [c], 0);
      assert [c][1..] == [];
      cells := cells + [c];
    }

    static function EncodeIntPayload(v: int): (p: seq<Byte>)
    {
      [1] + PutVarint(v)
    }

    method AppendInt(v: int)
      requires Valid() && -TWO_63 <= v < TWO_63
      modifies this
      ensures Valid() && Contents() == old(Contents()) + [EncodeIntPayload(v)]
    {
      IntPayloadShort(v);
      AppendEncoded(EncodeEntry(EncodeIntPayload(v)), NewCell(EncodeIntPayload(v)));
    }

    // A negative index counts from the end.
    method NormalizeIndex(index: int) returns (r: Result<int>)
      requires Valid()
      ensures r == Position(|cells|, index)
    {
      if |offsets| == 0 {
        return Err("empty listpack");
      }
      var i := index;
      if i < 0 {
        i := |offsets| + i;
      }
      if i < 0 || i >= |offsets| {
        return Err("index out of range");
      }
      return Ok(i);
    }

    static ghost function Position(n: int, index: int): Result<int> {
      if n == 0 then Err("empty listpack")
      else if 0 <= index < n then Ok(index)
      else if -n <= index < 0 then Ok(n + index)
      else Err("index out of range")
    }

    method Get(index: int) returns (r: Result<seq<Byte>>)
      requires Valid()
      ensures match Position(|Contents()|, index)
              case Ok(i) => 0 <= i < |Contents()| && r == Ok(Contents()[i])
              case Err(m) => r == Err(m)
    {
      var idx := NormalizeIndex(index);
      if idx.Err? {
        return Err(idx.message);
      }
      ReadsEntry(cells, idx.value);
      var entryStart := offsets[idx.value];
      var (length, lbytes) := Uvarint(data[entryStart..]);
      if lbytes <= 0 {
        return Err("corrupt listpack: bad length varint");
      }
      var payloadStart := entryStart + lbytes;
      var payloadEnd := payloadStart + length;
      if payloadEnd > |data| {
        return Err("corrupt listpack: truncated payload");
      }
      return Ok(data[payloadStart..payloadEnd]);
    }

    // (value, true) for an entry written as an integer, (0, false) for any other.
    method GetInt(index: int) returns (r: Result<(int, bool)>)
      requires Valid()
      ensures match Position(|Contents()|, index)
              case Ok(i) => 0 <= i < |Contents()| && r == IntOf(Contents()[i])
              case Err(m) => r == Err(m)
    {
      var raw := Get(index);
      if raw.Err? {
        return Err(raw.message);
      }
      if |raw.value| == 0 || raw.value[0] != 1 {
        return Ok((0, false));
      }
      var (v, n) := Varint(raw.value[1..]);
      if n <= 0 {
        return Err("corrupt integer encoding");
      }
      return Ok((v, true));
    }

    static ghost function IntOf(payload: seq<Byte>): Result<(int, bool)> {
      if payload == [] || payload[0] != 1 then Ok((0, false))
      else if Varint(payload[1..]).1 <= 0 then Err("corrupt integer encoding")
      else Ok((Varint(payload[1..]).0, true))
    }

    // Index -1 means behind the last element, -2 before it, and so on; below that, the front.
    static ghost function InsertPosition(n: int, index: int): int {
      if index >= 0 then index else if n + 1 + index < 0 then 0 else n + 1 + index
    }

    method InsertAt(index: int, payload: seq<Byte>) returns (ok: bool)
      requires Valid() && |payload| < TWO_63
      modifies this
      ensures Valid()
      ensures var i := InsertPosition(|old(Contents())|, index);
              && (ok <==> i <= |old(Contents())|)
              && Contents() == if ok then old(Contents())[..i] + [payload] + old(Contents())[i..] else old(Contents())
    {
      var i := index;
      if i < 0 {
        i := |offsets| + 1 + i;
      }
      if i < 0 {
        i := 0;
      }
      if i > |offsets| {
        return false;
      }
      InsertAtBytes(i, EncodeEntry(payload), NewCell(payload));
      return true;
    }

    method InsertIntAt(index: int, v: int) returns (ok: bool)
      requires Valid() && -TWO_63 <= v < TWO_63
      modifies this
      ensures Valid()
      ensures var i := InsertPosition(|old(Contents())|, index);
              && (ok <==> i <= |old(Contents())|)
              && Contents() == if ok then old(Contents())[..i] + [EncodeIntPayload(v)] + old(Contents())[i..]
                               else old(Contents())
    {
      var i := index;
      if i < 0 {
        i := |offsets| + 1 + i;
      }
      if i < 0 {
        i := 0;
      }
      if i > |offsets| {
        return false;
      }
      IntPayloadShort(v);
      InsertAtBytes(i, EncodeEntry(EncodeIntPayload(v)), NewCell(EncodeIntPayload(v)));
      return true;
    }

    method InsertAtBytes(index: int, entry: seq<Byte>, ghost c: Cell)
      requires Valid() && 0 <= index <= |cells|
      requires entry == EncodeEntry(c.body) && c == NewCell(c.body) && |c.body| < TWO_63
      modifies this
      ensures Valid() && cells == old(cells)[..index] + [c] + old(cells)[index..]
      ensures Contents() == old(Contents())[..index] + [c.body] + old(Contents())[index..]
    {
      hide Flat;
      hide Starts;
      hide Moved;
      if index == |offsets| {
        AppendEncoded(entry, c);
        assert old(cells)[..index] == old(cells) && old(cells)[index..] == [];
        return;
      }
      var pos := offsets[index];
      var newLen := |entry|;
      NewCellOk(c.body);
      Spliced(cells, index, c);
      data := data[..pos] + entry + data[pos..];
      offsets := offsets[..index] + ([pos] + offsets[index..]);
      TailAfterInsert(old(offsets), index, pos);
      ShiftFrom(index + 1, newLen);
      cells := cells[..index] + [c] + cells[index..];
    }

    // The loop that moves all offsets from an index on.
    method ShiftFrom(from: int, n: int)
      requires 0 <= from <= |offsets|
      modifies this`offsets
      ensures offsets == old(offsets)[..from] + Moved(old(offsets)[from..], n)
    {
      for i := from to |offsets|
        invariant |offsets| == |old(offsets)|
        invariant forall j :: 0 <= j < |offsets| ==> offsets[j] == old(offsets)[j] + if from <= j < i then n else 0
      {
        offsets := offsets[i := offsets[i] + n];
      }
    }

    // Removes the entry and gives back its payload.
    method DeleteAt(index: int) returns (r: Result<seq<Byte>>)
      requires Valid()
      modifies this
      ensures Valid()
      ensures match Position(|old(Contents())|, index)
              case Ok(i) =>
                && 0 <= i < |old(Contents())| && r == Ok(old(Contents())[i])
                && Contents() == old(Contents())[..i] + old(Contents())[i + 1..]
              case Err(m) => r == Err(m) && Contents() == old(Contents()) && data == old(data)
    {
      hide Flat;
      hide Starts;
      hide Moved;
      var idx := NormalizeIndex(index);
      if idx.Err? {
        return Err(idx.message);
      }
      var at := idx.value;
      ReadsEntry(cells, at);
      var start := offsets[at];
      var (length, lbytes) := Uvarint(data[start..]);
      if lbytes <= 0 {
        return Err("corrupt listpack: bad length varint");
      }
      var entryLen := lbytes + length;
      var end := start + entryLen;
      if end > |data| {
        return Err("corrupt listpack: truncated entry");
      }
      var payload := data[start + lbytes..end];
      CutOut(cells, at);
      data := data[..start] + data[end..];
      offsets := offsets[..at] + offsets[at + 1..];
      TailAfterCut(old(offsets), at);
      ShiftFrom(at, -entryLen);
      cells := cells[..at] + cells[at + 1..];
      return Ok(payload);
    }

    // Where the last entry starts.
    ghost function LastStart(): nat
      reads this
    {
      if cells == [] then 0 else |Flat(cells[..|cells| - 1])|
    }

    // Data, then a footer: the magic, the entry count and the start of the last entry.
    method Bytes() returns (out: seq<Byte>)
      requires Valid() && |data| < TWO_63
      ensures out == data + FOOTER_MAGIC + PutLittle(|cells|, 8) + PutLittle(LastStart(), 8)
      ensures Body(out) == data && |out| == |data| + FOOTER_SIZE
      ensures Little(out[|data| + 4..|data| + 12]) == |cells|
    {
      var cnt := |offsets|;
      var tail := 0;
      if cnt > 0 {
        ReadsEntry(cells, cnt - 1);
        StartsAround(cells, cnt - 1);
        tail := offsets[cnt - 1];
      }
      out := data + FOOTER_MAGIC + PutLittle(cnt, 8) + PutLittle(tail, 8);
      CellsFit(cells);
      Pow256Values();
      LittleRoundTrip(cnt, 8);
      assert out[|data| + 4..|data| + 12] == PutLittle(cnt, 8);
      assert out[|data|..|data| + 4] == FOOTER_MAGIC;
      assert out[..|data|] == data;
    }

    // Scans the data for entries.  A length of 2^63 or more overflows Go's int; the scan then has no
    // defined end, and this model reports an error.
    method RebuildOffsets() returns (ok: bool)
      modifies this`offsets, this`cells
      ensures ok ==> Valid()
      ensures ok <==> exists c :: CellsOk(c) && Flat(c) == data
    {
      hide Uvarint;
      offsets := [];
      cells := [];
      var pos := 0;
      while pos < |data|
        invariant 0 <= pos <= |data| && CellsOk(cells)
        invariant Flat(cells) == data[..pos] && offsets == Starts(cells, 0)
        modifies this`offsets, this`cells
        decreases |data| - pos
      {
        offsets := offsets + [pos];
        var (length, lbytes) := Uvarint(data[pos..]);
        if lbytes <= 0 || length >= TWO_63 || pos + lbytes + length > |data| {
          StuckMeansNoParse(data, cells, pos);
          return false;
        }
        ghost var c := Cell(data[pos..pos + lbytes], data[pos + lbytes..pos + lbytes + length]);
        NextCell(data, cells, pos, c);
        cells := cells + [c];
        pos := pos + lbytes + length;
      }
      assert data[..pos] == data;
      return true;
    }

    // Reads back what Bytes wrote, or bytes without a footer.
    static method FromBytes(b: seq<Byte>) returns (r: Result<ListPack>)
      ensures r.Ok? ==> fresh(r.value) && r.value.Valid() && r.value.data == Body(b)
      ensures forall c :: CellsOk(c) && Flat(c) == Body(b) ==> r.Ok? && r.value.cells == c
    {
      var lp := new ListPack();
      if |b| == 0 {
        forall c | CellsOk(c) && Flat(c) == Body(b) ensures c == [] {
          SameBytesSameCells([], c);
        }
        return Ok(lp);
      }
      if |b| >= FOOTER_SIZE {
        var start := |b| - FOOTER_SIZE;
        if b[start..start + 4] == FOOTER_MAGIC {
          var count := Little(b[start + 4..start + 12]);
          lp.data := b[..start];
          var ok := lp.RebuildOffsets();
          if !ok {
            return Err("corrupt listpack");
          }
          if |lp.offsets| != count {
            ok := lp.RebuildOffsets();
            if !ok {
              return Err("corrupt listpack");
            }
          }
          Unique(lp.cells);
          return Ok(lp);
        }
      }
      lp.data := b;
      var ok := lp.RebuildOffsets();
      if !ok {
        return Err("corrupt listpack");
      }
      Unique(lp.cells);
      return Ok(lp);
    }

    // The two-byte text 01 02 goes in as a string, and comes out as the integer 1.
    static method StoreTextReadInteger() returns (r: Result<(int, bool)>)
      ensures r == Ok((1, true))
    {
      var lp := new ListPack();
      lp.Append([1, 2]);
      r := lp.GetInt(-1);
      StringReadsAsInt(1, []);
      assert EncodeIntPayload(1) + [] == [1, 2];
    }

    // Serialising and reading back gives the same list pack: entries, buffer and index.
    static method Reload(lp: ListPack) returns (copy: ListPack)
      requires lp.Valid() && |lp.data| < TWO_63
      ensures copy.Valid() && copy.Contents() == lp.Contents()
      ensures copy.data == lp.data && copy.offsets == lp.offsets
    {
      var b := lp.Bytes();
      var r := FromBytes(b);
      assert r.Ok? && r.value.cells == lp.cells;
      copy := r.value;
    }
  }

  const FOOTER_SIZE: int := 20
  const FOOTER_MAGIC: seq<Byte> := [0x4C, 0x50, 0x46, 0x31]  // "LPF1"

  // The bytes in front of the footer, or all of them when there is none.
  function Body(b: seq<Byte>): seq<Byte> {
    var start := |b| - FOOTER_SIZE;
    if start >= 0 && b[start..start + 4] == FOOTER_MAGIC then b[..start] else b
  }

  lemma {:induction false} CellsFit(cells: seq<Cell>)
    requires CellsOk(cells)
    ensures |cells| <= |Flat(cells)|
  {
    if cells != [] {
      assert CellOk(cells[0]);
      CellsFit(cells[1..]);
    }
  }

  // Entries are a prefix code: a list of them that starts the same bytes is the start of the list.
  lemma {:induction false} PrefixCode(a: seq<Cell>, b: seq<Cell>, rest: seq<Byte>)
    requires CellsOk(a) && CellsOk(b) && Flat(a) + rest == Flat(b)
    ensures a <= b && Flat(b[|a|..]) == rest
  {
    hide Uvarint;
    if a == [] {
      assert Flat(a) + rest == rest && b[0..] == b;
    } else {
      assert CellOk(a[0]) && Flat(b) != [];
      assert CellOk(b[0]);
      var x, y := Flat(a[1..]) + rest, Flat(b[1..]);
      assert Flat(b) == a[0].head + (a[0].body + x) && Flat(b) == b[0].head + (b[0].body + y);
      SameCell(a[0], x, b[0], y);
      PrefixCode(a[1..], b[1..], rest);
      PrefixCons(a, b);
    }
  }

  lemma PrefixCons<T>(a: seq<T>, b: seq<T>)
    requires a != [] && b != [] && a[0] == b[0] && a[1..] <= b[1..]
    ensures a <= b && b[|a|..] == b[1..][|a[1..]|..]
  {
    assert a == [a[0]] + a[1..] && b == [b[0]] + b[1..];
  }

  // What follows a cell does not hide which cell it is.
  lemma SameCell(c: Cell, x: seq<Byte>, d: Cell, y: seq<Byte>)
    requires CellOk(c) && CellOk(d) && c.head + (c.body + x) == d.head + (d.body + y)
    ensures c == d && x == y
  {
    hide Uvarint;
    UvarintPrefix(c.head, c.body + x);
    UvarintPrefix(d.head, d.body + y);
    SamePrefix(c.head, c.body + x, d.head, d.body + y);
    SamePrefix(c.body, x, d.body, y);
  }

  lemma SamePrefix<T>(a: seq<T>, x: seq<T>, b: seq<T>, y: seq<T>)
    requires a + x == b + y && |a| == |b|
    ensures a == b && x == y
  {
    assert (a + x)[..|a|] == a && (b + y)[..|a|] == b;
    assert (a + x)[|a|..] == x && (b + y)[|a|..] == y;
  }

  lemma SameBytesSameCells(a: seq<Cell>, b: seq<Cell>)
    requires CellsOk(a) && CellsOk(b) && Flat(a) == Flat(b)
    ensures a == b
  {
    assert Flat(a) + [] == Flat(b);
    PrefixCode(a, b, []);
    assert Flat(b) + [] == Flat(a);
    PrefixCode(b, a, []);
  }

  lemma Unique(a: seq<Cell>)
    requires CellsOk(a)
    ensures forall c :: CellsOk(c) && Flat(c) == Flat(a) ==> c == a
  {
    forall c | CellsOk(c) && Flat(c) == Flat(a) ensures c == a {
      SameBytesSameCells(c, a);
    }
  }

  lemma StuckMeansNoParse(data: seq<Byte>, done: seq<Cell>, pos: int)
    requires CellsOk(done) && 0 <= pos < |data| && Flat(done) == data[..pos]
    requires var (length, n) := Uvarint(data[pos..]); n <= 0 || length >= TWO_63 || pos + n + length > |data|
    ensures !exists c :: CellsOk(c) && Flat(c) == data
  {
    if c :| CellsOk(c) && Flat(c) == data {
      assert data == data[..pos] + data[pos..];
      PrefixCode(done, c, data[pos..]);
      FirstCell(c[|done|..], data[pos..]);
    }
  }

  lemma FirstCell(cells: seq<Cell>, data: seq<Byte>)
    requires CellsOk(cells) && Flat(cells) == data && data != []
    ensures var (length, n) := Uvarint(data); 0 < n && length < TWO_63 && n + length <= |data|
  {
    assert CellOk(cells[0]);
    assert data == cells[0].head + (cells[0].body + Flat(cells[1..]));
    UvarintPrefix(cells[0].head, cells[0].body + Flat(cells[1..]));
  }

  lemma NextCell(data: seq<Byte>, done: seq<Cell>, pos: int, c: Cell)
    requires CellsOk(done) && 0 <= pos < |data| && Flat(done) == data[..pos]
    requires var (length, n) := Uvarint(data[pos..]);
             && 0 < n && length < TWO_63 && pos + n + length <= |data|
             && c == Cell(data[pos..pos + n], data[pos + n..pos + n + length])
    ensures CellOk(c) && CellsOk(done + [c])
    ensures Flat(done + [c]) == data[..pos + |c.head| + |c.body|]
    ensures Starts(done + [c], 0) == Starts(done, 0) + [pos]
  {
    UvarintPrefix(data[pos..], []);
    var n := |c.head|;
    assert data[pos..][..n] == c.head;
    FlatConcat(done, [c]);
    StartsConcat(done, [c], 0);
    assert [c][1..] == [];
    assert data[..pos] + (c.head + c.body) == data[..pos + n + |c.body|];
  }

  // Buffer and index with a new entry in front of entry i: the later offsets move up.
  lemma Spliced(cells: seq<Cell>, i: nat, c: Cell)
    requires CellsOk(cells) && i < |cells| && CellOk(c)
    ensures CellsOk(cells[..i] + [c] + cells[i..])
    ensures 0 <= Starts(cells, 0)[i] <= |Flat(cells)|
    ensures Flat(cells[..i] + [c] + cells[i..])
         == Flat(cells)[..Starts(cells, 0)[i]] + (c.head + c.body) + Flat(cells)[Starts(cells, 0)[i]..]
    ensures Starts(cells[..i] + [c] + cells[i..], 0)
         == Starts(cells, 0)[..i] + [Starts(cells, 0)[i]] + Moved(Starts(cells, 0)[i..], |c.head| + |c.body|)
  {
    hide Moved;
    hide CellOk;
    hide Flat;
    hide Starts;
    var a, z, n := cells[..i], cells[i..], |c.head| + |c.body|;
    SplitAt(cells, i);
    var p := |Flat(a)|;
    assert a + [c] + z == a + ([c] + z);
    ConsCell(c, z, p);
    FlatConcat(a, [c] + z);
    StartsConcat(a, [c] + z, 0);
    StartsMoved(z, p, n);
    assert Starts(a, 0) + ([p] + Starts(z, p + n)) == Starts(a, 0) + [p] + Starts(z, p + n);
  }

  lemma ConsCell(c: Cell, z: seq<Cell>, p: int)
    ensures Flat([c] + z) == (c.head + c.body) + Flat(z)
    ensures Starts([c] + z, p) == [p] + Starts(z, p + (|c.head| + |c.body|))
  {
    assert ([c] + z)[1..] == z;
  }

  // Buffer and index of a list cut in two at entry i.
  lemma SplitAt(cells: seq<Cell>, i: nat)
    requires i <= |cells|
    ensures var p := |Flat(cells[..i])|;
            && p <= |Flat(cells)|
            && Flat(cells)[..p] == Flat(cells[..i]) && Flat(cells)[p..] == Flat(cells[i..])
            && Starts(cells, 0)[..i] == Starts(cells[..i], 0) && Starts(cells, 0)[i..] == Starts(cells[i..], p)
            && (i < |cells| ==> Starts(cells, 0)[i] == p)
  {
    assert cells == cells[..i] + cells[i..];
    FlatConcat(cells[..i], cells[i..]);
    StartsConcat(cells[..i], cells[i..], 0);
    if i < |cells| {
      assert Starts(cells, 0)[i] == Starts(cells, 0)[i..][0];
    }
  }

  // Buffer and index without entry i: the later offsets move down.
  lemma CutOut(cells: seq<Cell>, i: nat)
    requires CellsOk(cells) && i < |cells|
    ensures CellsOk(cells[..i] + cells[i + 1..])
    ensures var pos, n := Starts(cells, 0)[i], |cells[i].head| + |cells[i].body|;
            && 0 <= pos <= pos + n <= |Flat(cells)|
            && Flat(cells[..i] + cells[i + 1..]) == Flat(cells)[..pos] + Flat(cells)[pos + n..]
            && Starts(cells[..i] + cells[i + 1..], 0) == Starts(cells, 0)[..i] + Moved(Starts(cells, 0)[i + 1..], -n)
  {
    hide CellOk;
    hide Flat;
    hide Starts;
    hide Moved;
    FlatAround(cells, i);
    StartsAround(cells, i);
    CutBytes(cells, i);
    CutIndex(cells, i);
  }

  lemma CutBytes(cells: seq<Cell>, i: nat)
    requires i < |cells|
    ensures var pos, n := |Flat(cells[..i])|, |cells[i].head| + |cells[i].body|;
            && pos + n <= |Flat(cells)|
            && Flat(cells[..i] + cells[i + 1..]) == Flat(cells)[..pos] + Flat(cells)[pos + n..]
  {
    hide Flat;
    hide Starts;
    FlatAround(cells, i);
    StartsAround(cells, i);
    ThreeParts(Flat(cells), Flat(cells[..i]), cells[i].head + cells[i].body, Flat(cells[i + 1..]));
    FlatConcat(cells[..i], cells[i + 1..]);
  }

  lemma CutIndex(cells: seq<Cell>, i: nat)
    requires i < |cells|
    ensures Starts(cells[..i] + cells[i + 1..], 0)
         == Starts(cells, 0)[..i] + Moved(Starts(cells, 0)[i + 1..], -(|cells[i].head| + |cells[i].body|))
  {
    hide Flat;
    hide Starts;
    hide Moved;
    var a, z := cells[..i], cells[i + 1..];
    var p, n := |Flat(a)|, |cells[i].head| + |cells[i].body|;
    FlatAround(cells, i);
    StartsAround(cells, i);
    assert p + n == p + |cells[i].head| + |cells[i].body|;
    ThreeParts(Starts(cells, 0), Starts(a, 0), [p], Starts(z, p + n));
    StartsConcat(a, z, 0);
    StartsMoved(z, p + n, -n);
    assert p + n + -n == 0 + p;
  }

  lemma ThreeParts<T>(s: seq<T>, a: seq<T>, m: seq<T>, z: seq<T>)
    requires s == a + m + z
    ensures s[..|a|] == a && s[|a| + |m|..] == z && s[|a|..|a| + |m|] == m
  {
  }

  lemma TailAfterInsert<T>(s: seq<T>, i: nat, x: T)
    requires i <= |s|
    ensures (s[..i] + ([x] + s[i..]))[..i + 1] == s[..i] + [x]
    ensures (s[..i] + ([x] + s[i..]))[i + 1..] == s[i..]
  {
  }

  lemma TailAfterCut<T>(s: seq<T>, i: nat)
    requires i < |s|
    ensures (s[..i] + s[i + 1..])[..i] == s[..i]
    ensures (s[..i] + s[i + 1..])[i..] == s[i + 1..]
  {
  }

  lemma {:induction false} UvarintShort(x: nat, k: nat)
    requires x < Pow128(k) && k > 0
    ensures |PutUvarint(x)| <= k
  {
    if x >= 128 {
      UvarintShort(x / 128, k - 1);
    }
  }

  ghost function Pow128(n: nat): (p: nat)
    ensures p > 0
  {
    if n == 0 then 1 else 128 * Pow128(n - 1)
  }

  lemma IntPayloadShort(v: int)
    requires -TWO_63 <= v < TWO_63
    ensures |ListPack.EncodeIntPayload(v)| <= 11
  {
    assert Pow128(3) == 0x20_0000 && Pow128(6) == 0x400_0000_0000;
    assert Pow128(10) > TWO_64;
    UvarintShort(if v >= 0 then 2 * v else -2 * v - 1, 10);
  }

  // An integer entry reads back as the integer.
  lemma IntRoundTrip(v: int)
    requires -TWO_63 <= v < TWO_63
    ensures ListPack.IntOf(ListPack.EncodeIntPayload(v)) == Ok((v, true))
  {
    VarintRoundTrip(v, []);
    assert ListPack.EncodeIntPayload(v)[1..] == PutVarint(v) + [];
    assert PutVarint(v) + [] == PutVarint(v);
  }

  // Strings and integers share one form: a string that begins with the bytes of an integer entry reads as that
  // integer, whatever follows.
  lemma StringReadsAsInt(v: int, rest: seq<Byte>)
    requires -TWO_63 <= v < TWO_63
    ensures ListPack.IntOf(ListPack.EncodeIntPayload(v) + rest) == Ok((v, true))
  {
    VarintRoundTrip(v, rest);
    assert (ListPack.EncodeIntPayload(v) + rest)[1..] == PutVarint(v) + rest;
  }

  // When that happens, byte by byte.
  lemma ReadsAsInt(payload: seq<Byte>)
    ensures (exists v :: ListPack.IntOf(payload) == Ok((v, true)))
       <==> payload != [] && payload[0] == 1 && Terminated(payload[1..], 0)
  {
    if payload != [] {
      hide Terminated;
      ReadsWhen(payload[1..], 0);
    }
  }
}
