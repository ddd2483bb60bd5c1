/** The Redis serialization protocol: what the server writes (internal/utils/resp.go), and how it reads
    commands from a buffer (internal/utils/resp.go, internal/command/parser.go).  A char stands for a byte. */
module Resp {
  import opened Bytes
  import opened StreamIDs
  import opened Numbers
  import Orders

  // ---- writing ----

  const CRLF: string := "\r\n"

  function ToBulkString(s: string): string { "$" + Decimal(|s|) + CRLF + s + CRLF }

  function Bulks(elements: seq<string>): string {
    if elements == [] then "" else ToBulkString(elements[0]) + Bulks(elements[1..])
  }

  function ArrayOf(elements: seq<string>): string { "*" + Decimal(|elements|) + CRLF + Bulks(elements) }

  // None stands for a nil slice.
  method ToRespArray(slice: Option<seq<string>>) returns (result: string)
    ensures result == if slice.None? then "*-1" + CRLF else ArrayOf(slice.value)
  {
    if slice.None? {
      return "*-1" + CRLF;
    }
    var elements := slice.value;
    result := "*" + Decimal(|elements|) + CRLF;
    for i := 0 to |elements|
      invariant result + Bulks(elements[i..]) == ArrayOf(elements)
    {
      ghost var before := result;
      assert elements[i..][0] == elements[i] && elements[i..][1..] == elements[i + 1..];
      result := result + ToBulkString(elements[i]);
      assert before + (ToBulkString(elements[i]) + Bulks(elements[i + 1..])) == result + Bulks(elements[i + 1..]);
    }
  }

  // ---- the buffered reader ----

  const BUFFER: int := 4096

  // Where reading stands: what lies between pos and end is in the reader's buffer.
  datatype Cursor = Cursor(pos: int, end: int)

  ghost predicate CursorOk(data: string, c: Cursor) { 0 <= c.pos <= c.end <= |data| }

  // How far a refill at pos reaches in data of the given length.
  function FillTo(total: int, pos: int): int { if pos + BUFFER < total then pos + BUFFER else total }

  // The first newline at or behind pos; -1 when there is none.
  function Newline(data: string, pos: int): (q: int)
    requires 0 <= pos <= |data|
    ensures q == -1 || (pos <= q < |data| && data[q] == '\n')
    ensures forall i :: pos <= i < (if q == -1 then |data| else q) ==> data[i] != '\n'
    decreases |data| - pos
  {
    if pos == |data| then -1 else if data[pos] == '\n' then pos else Newline(data, pos + 1)
  }

  // The end of the buffer once the byte at q is in it.  A buffer that is full without it is passed over.
  function EndAfter(total: int, c: Cursor, q: int): (end: int)
    requires 0 <= c.pos <= c.end <= total && c.pos <= q < total
    ensures q < end <= total
    decreases q - c.pos + total - c.end
  {
    if q < c.end then c.end
    else if c.end - c.pos >= BUFFER then EndAfter(total, Cursor(c.end, c.end), q)
    else if FillTo(total, c.pos) <= c.end then total
    else EndAfter(total, Cursor(c.pos, FillTo(total, c.pos)), q)
  }

  // The buffer holds 4096 bytes at a time: behind a line it ends at the first multiple of that, from where the
  // line began, that lies behind the newline - or at the end of the data.
  lemma {:induction false} EndsInChunks(total: int, c: Cursor, q: int)
    requires 0 <= c.pos <= c.end <= total && c.pos <= q < total && c.end - c.pos <= 4096
    ensures var chunks := (q - c.pos) / 4096 + 1;
            EndAfter(total, c, q) == if q < c.end then c.end
                                     else if c.pos + 4096 * chunks < total then c.pos + 4096 * chunks else total
    decreases q - c.pos + total - c.end
  {
    if q >= c.end {
      if c.end - c.pos == 4096 {
        EndsInChunks(total, Cursor(c.end, c.end), q);
        assert (q - c.pos) / 4096 == (q - c.end) / 4096 + 1;
      } else {
        EndsInChunks(total, Cursor(c.pos, FillTo(total, c.pos)), q);
        if q < c.pos + 4096 {
          assert (q - c.pos) / 4096 == 0;
        }
      }
    }
  }

  // Panicked: the call does not return.
  datatype Parsed<+T> = Got(value: T, next: Cursor) | Failed(at: Cursor) | Panicked

  // ReadString('\n').  At the end of the data everything has been taken.
  function ReadLine(data: string, c: Cursor): (r: Parsed<string>)
    requires 0 <= c.pos <= c.end <= |data|
    ensures match r
            case Got(line, d) => c.pos < d.pos <= d.end <= |data| && line == data[c.pos..d.pos]
            case Failed(d) => d == Cursor(|data|, |data|)
            case Panicked => false
  {
    var q := Newline(data, c.pos);
    if q == -1 then Failed(Cursor(|data|, |data|))
    else Got(data[c.pos..q + 1], Cursor(q + 1, EndAfter(|data|, c, q)))
  }

  function Peek(data: string, c: Cursor): (r: Parsed<char>)
    requires 0 <= c.pos <= c.end <= |data|
    ensures match r
            case Got(b, d) => d.pos == c.pos < d.end <= |data| && b == data[c.pos]
            case Failed(d) => d == c && c.pos == |data|
            case Panicked => false
  {
    if c.pos < c.end then Got(data[c.pos], c)
    else if c.pos == |data| then Failed(c)
    else Got(data[c.pos], Cursor(c.pos, FillTo(|data|, c.pos)))
  }

  // Read into a slice of n bytes: it takes what is in the buffer and no more, and the rest stays zero.
  function ReadBytes(data: string, c: Cursor, n: nat): (r: Parsed<string>)
    requires 0 <= c.pos <= c.end <= |data| && n > 0
    ensures match r
            case Got(s, d) => c.pos < d.pos <= d.end <= |data| && |s| == n
            case Failed(d) => d == c
            case Panicked => false
  {
    var end := if c.pos < c.end then c.end else if n >= BUFFER then |data| else FillTo(|data|, c.pos);
    var k := if n < end - c.pos then n else end - c.pos;
    if k == 0 then Failed(c)
    else Got(data[c.pos..c.pos + k] + seq(n - k, _ => 0 as char),
             Cursor(c.pos + k, if c.pos == c.end && n >= BUFFER then c.pos + k else end))
  }

  // ---- reading values ----

  datatype Value = Str(text: string) | Null | Array(elements: seq<Value>)

  // The largest allocation of Go's runtime on a 64-bit platform, and the number of values that fit it.
  const MAX_ALLOC: int := 0x1_0000_0000_0000
  const MAX_COUNT: int := MAX_ALLOC / 16

  function ParseArray(data: string, c: Cursor): (r: Parsed<Value>)
    requires 0 <= c.pos <= c.end <= |data|
    ensures match r
            case Got(_, d) => c.pos < d.pos <= d.end <= |data|
            case Failed(d) => 0 <= d.pos <= d.end <= |data|
            case Panicked => true
    decreases |data| - c.pos, 0
  {
    match ReadLine(data, c)
    case Panicked => Panicked
    case Failed(d) => Failed(d)
    case Got(line, d) =>
      var prefix := TrimSpace(line);
      if prefix == "" || prefix[0] != '*' then Failed(d)
      else
        match Atoi(prefix[1..])
        case Err(_) => Failed(d)
        case Ok(count) =>
          if count == -1 then Got(Null, d)
          else if count < -1 || count > MAX_COUNT then Panicked
          else ParseElements(data, d, count, [])
  }

  function ParseElements(data: string, c: Cursor, count: nat, sofar: seq<Value>): (r: Parsed<Value>)
    requires 0 <= c.pos <= c.end <= |data|
    ensures match r
            case Got(_, d) => c.pos <= d.pos <= d.end <= |data|
            case Failed(d) => 0 <= d.pos <= d.end <= |data|
            case Panicked => true
    decreases |data| - c.pos, 2, count
  {
    if count == 0 then Got(Array(sofar), c)
    else
      match ParseElement(data, c)
      case Panicked => Panicked
      case Failed(d) => Failed(d)
      case Got(v, d) => ParseElements(data, d, count - 1, sofar + [v])
  }

  function ParseElement(data: string, c: Cursor): (r: Parsed<Value>)
    requires 0 <= c.pos <= c.end <= |data|
    ensures match r
            case Got(_, d) => c.pos < d.pos <= d.end <= |data|
            case Failed(d) => 0 <= d.pos <= d.end <= |data|
            case Panicked => true
    decreases |data| - c.pos, 1
  {
    match Peek(data, c)
    case Panicked => Panicked
    case Failed(d) => Failed(d)
    case Got(b, d) =>
      if b == '*' then ParseArray(data, d)
      else if b == '$' then ParseBulk(data, d)
      else Failed(d)
  }

  function ParseBulk(data: string, c: Cursor): (r: Parsed<Value>)
    requires 0 <= c.pos <= c.end <= |data|
    ensures match r
            case Got(_, d) => c.pos < d.pos <= d.end <= |data|
            case Failed(d) => 0 <= d.pos <= d.end <= |data|
            case Panicked => true
  {
    match ReadLine(data, c)
    case Panicked => Panicked
    case Failed(d) => Failed(d)
    case Got(line, d) =>
      var prefix := TrimSpace(line);
      if prefix == "" || prefix[0] != '$' then Failed(d)
      else
        match Atoi(prefix[1..])
        case Err(_) => Failed(d)
        case Ok(len) =>
          if len == -1 then Got(Null, d)
          else if len < -1 || len + 2 > MAX_ALLOC then Panicked
          else
            match ReadBytes(data, d, len + 2)
            case Panicked => Panicked
            case Failed(e) => Failed(e)
            case Got(s, e) => Got(Str(s[..len]), e)
  }

  ghost function Flat(values: seq<Value>): seq<string> {
    if values == [] then [] else FlatOne(values[0]) + Flat(values[1..])
  }

  ghost function FlatOne(v: Value): seq<string> {
    match v
    case Str(s) => [s]
    case Null => []
    case Array(es) => Flat(es)
  }

  // ---- commands ----

  datatype Command = Command(name: string, args: seq<string>)

  // strings.ToUpper, on ASCII.
  function Upper(c: char): char { if 'a' <= c <= 'z' then c - 'a' + 'A' else c }

  function ToUpper(s: string): (r: string)
    ensures |r| == |s| && forall i :: 0 <= i < |s| ==> r[i] == Upper(s[i])
  {
    seq(|s|, i requires 0 <= i < |s| => Upper(s[i]))
  }

  function CommandName(s: string): string { ToUpper(TrimSpace(s)) }

  function Words(c: Command): seq<string> { [c.name] + c.args }

  // What ParseMultipleRequests returns: the commands, and the data behind the place where it stopped.  None
  // for a panic.
  ghost function Requests(data: string, c: Cursor, sofar: seq<Command>): (r: Option<(seq<Command>, string)>)
    requires 0 <= c.pos <= c.end <= |data|
    decreases |data| - c.pos
  {
    var peek := Peek(data, c);
    if !peek.Got? then Some((sofar, ""))
    else
      match ParseArray(data, peek.next)
      case Panicked => None
      case Failed(e) => Some((sofar, data[e.pos..]))
      case Got(v, e) =>
        var flat := FlatOne(v);
        Requests(data, e, if flat == [] then sofar else sofar + [Command(CommandName(flat[0]), flat[1..])])
  }

  // What it returns for a whole buffer.
  ghost function Buffered(data: string): (r: Option<(seq<Command>, string)>) { Requests(data, Cursor(0, 0), []) }

  // ---- the loops ----

  method ParseRESPArrayRecursive(data: string, start: Cursor) returns (r: Parsed<Value>)
    requires CursorOk(data, start)
    ensures r == ParseArray(data, start)
    decreases |data| - start.pos, 0
  {
    hide TrimSpace;
    hide Atoi;
    hide Newline;
    hide EndAfter;
    hide ParseElement;
    var reader := start;
    var line := ReadLine(data, reader);
    if line.Failed? {
      return Failed(line.at);
    }
    reader := line.next;
    var prefix := TrimSpace(line.value);
    if prefix == "" || prefix[0] != '*' {
      return Failed(reader);
    }
    var count := Atoi(prefix[1..]);
    if count.Err? {
      return Failed(reader);
    }
    if count.value == -1 {
      return Got(Null, reader);
    }
    if count.value < -1 || count.value > MAX_COUNT {
      return Panicked;
    }
    var result: seq<Value> := [];
    assert ParseElements(data, reader, count.value, []) == ParseArray(data, start);
    for i := 0 to count.value
      invariant CursorOk(data, reader) && start.pos < reader.pos
      invariant ParseElements(data, reader, count.value - i, result) == ParseArray(data, start)
    {
      var element := ParseRESPElement(data, reader);
      if element.Panicked? {
        return Panicked;
      }
      if element.Failed? {
        return Failed(element.at);
      }
      reader := element.next;
      result := result + [element.value];
    }
    return Got(Array(result), reader);
  }

  // The loop body: one element by its type byte.
  method ParseRESPElement(data: string, reader: Cursor) returns (r: Parsed<Value>)
    requires CursorOk(data, reader)
    ensures r == ParseElement(data, reader)
    decreases |data| - reader.pos, 1
  {
    hide ParseArray;
    hide ParseBulk;
    var peek := Peek(data, reader);
    if peek.Failed? {
      return Failed(peek.at);
    }
    if peek.value == '*' {
      r := ParseRESPArrayRecursive(data, peek.next);
    } else if peek.value == '$' {
      r := ParseBulk(data, peek.next);
    } else {
      r := Failed(peek.next);
    }
  }

  method FlattenRESPArray(values: seq<Value>) returns (result: seq<string>)
    ensures result == Flat(values)
    decreases values
  {
    result := [];
    for i := 0 to |values|
      invariant result + Flat(values[i..]) == Flat(values)
    {
      ghost var before := result;
      assert values[i..][0] == values[i] && values[i..][1..] == values[i + 1..];
      match values[i]
      case Str(s) => result := result + [s];
      case Null =>
      case Array(es) =>
        var flattened := FlattenRESPArray(es);
        result := result + flattened;
      assert before + (FlatOne(values[i]) + Flat(values[i + 1..])) == result + Flat(values[i + 1..]);
    }
  }

  // panics is true when the source does not return.
  method ParseMultipleRequests(data: string) returns (panics: bool, commands: seq<Command>, leftover: string)
    ensures Requests(data, Cursor(0, 0), []) == if panics then None else Some((commands, leftover))
  {
    commands := [];
    var reader := Cursor(0, 0);
    while true
      invariant CursorOk(data, reader)
      invariant Requests(data, reader, commands) == Requests(data, Cursor(0, 0), [])
      decreases |data| - reader.pos
    {
      var peek := Peek(data, reader);
      if peek.Failed? {
        return false, commands, "";
      }
      reader := peek.next;
      var parsed := ParseRESPArrayRecursive(data, reader);
      if parsed.Panicked? {
        return true, [], "";
      }
      if parsed.Failed? {
        return false, commands, data[parsed.at.pos..];
      }
      reader := parsed.next;
      var flat: seq<string> := [];
      if parsed.value.Array? {
        flat := FlattenRESPArray(parsed.value.elements);
      }
      ParsedIsArray(data, peek.next);
      if |flat| > 0 {
        commands := commands + [Command(CommandName(flat[0]), flat[1..])];
      }
    }
  }

  lemma ParsedIsArray(data: string, c: Cursor)
    requires CursorOk(data, c) && ParseArray(data, c).Got?
    ensures !ParseArray(data, c).value.Str?
  {
    var line := ReadLine(data, c);
    var prefix := TrimSpace(line.value);
    var count := Atoi(prefix[1..]);
    if count.value >= 0 {
      ElementsIsArray(data, line.next, count.value, []);
    }
  }

  lemma {:induction false} ElementsIsArray(data: string, c: Cursor, count: nat, sofar: seq<Value>)
    requires CursorOk(data, c) && ParseElements(data, c, count, sofar).Got?
    ensures ParseElements(data, c, count, sofar).value.Array?
    decreases count
  {
    if count > 0 {
      var e := ParseElement(data, c);
      ElementsIsArray(data, e.next, count - 1, sofar + [e.value]);
    }
  }

  // ---- what was written is read back ----

  lemma TrimLine(text: string)
    requires text != "" && !IsSpace(text[0]) && !IsSpace(text[|text| - 1])
    ensures TrimSpace(text + CRLF) == text
  {
    var line := text + CRLF;
    assert TrimLeft(line) == line;
    assert line[..|line| - 1] == text + "\r";
    assert (text + "\r")[..|text|] == text;
    assert TrimRight(text) == text;
    assert TrimRight(text + "\r") == text;
  }

  // One line: a newline at the end and nowhere else.
  ghost predicate IsLine(line: string) {
    line != "" && line[|line| - 1] == '\n' && forall i :: 0 <= i < |line| - 1 ==> line[i] != '\n'
  }

  lemma LineEnds(text: string)
    requires '\n' !in text
    ensures IsLine(text + CRLF)
  {
  }

  lemma LineAt(data: string, c: Cursor, line: string)
    requires CursorOk(data, c) && c.pos + |line| <= |data| && data[c.pos..c.pos + |line|] == line && IsLine(line)
    ensures ReadLine(data, c) == Got(line, Cursor(c.pos + |line|, EndAfter(|data|, c, c.pos + |line| - 1)))
  {
    hide EndAfter;
    hide ReadLine;
    var q := c.pos + |line| - 1;
    SameChars(data, c.pos, line);
    assert data[q] == '\n';
    LineTo(data, c, q);
    assert data[c.pos..q + 1] == line;
  }

  lemma LineTo(data: string, c: Cursor, q: int)
    requires CursorOk(data, c) && c.pos <= q < |data|
    requires data[q] == '\n' && forall i :: c.pos <= i < q ==> data[i] != '\n'
    ensures ReadLine(data, c) == Got(data[c.pos..q + 1], Cursor(q + 1, EndAfter(|data|, c, q)))
  {
    hide EndAfter;
    hide Newline;
    NewlineAt(data, c.pos, q);
  }

  lemma SameChars(data: string, pos: nat, x: string)
    requires pos + |x| <= |data| && data[pos..pos + |x|] == x
    ensures forall i {:trigger data[i]} :: pos <= i < pos + |x| ==> data[i] == x[i - pos]
  {
    forall i | pos <= i < pos + |x| ensures data[i] == x[i - pos] {
      assert data[pos..pos + |x|][i - pos] == data[i];
    }
  }

  lemma {:induction false} NewlineAt(data: string, pos: int, q: int)
    requires 0 <= pos <= q < |data| && data[q] == '\n' && forall i :: pos <= i < q ==> data[i] != '\n'
    ensures Newline(data, pos) == q
    decreases q - pos
  {
    if pos < q {
      NewlineAt(data, pos + 1, q);
    }
  }

  lemma HeaderAt(data: string, c: Cursor, mark: char, n: nat, rest: string)
    requires CursorOk(data, c) && data[c.pos..] == ([mark] + Decimal(n) + CRLF) + rest
    requires n < TWO_63 && (mark == '*' || mark == '$')
    ensures var line := ReadLine(data, c);
            && line.Got? && line.next.pos == c.pos + |Decimal(n)| + 3 && data[line.next.pos..] == rest
            && (c.pos < c.end ==> line.next == AfterLine(|data|, c, HeaderWidth(n)))
            && TrimSpace(line.value) != "" && TrimSpace(line.value)[0] == mark
            && Atoi(TrimSpace(line.value)[1..]) == Ok(n)
  {
    hide EndAfter;
    hide ReadLine;
    hide Decimal;
    hide Atoi;
    hide TrimSpace;
    var text := [mark] + Decimal(n);
    LineEnds(text);
    Suffix(data, c.pos, text + CRLF, rest);
    LineAt(data, c, text + CRLF);
    assert text[|text| - 1] == Decimal(n)[|Decimal(n)| - 1];
    TrimLine(text);
    AtoiItoa(n);
    assert text[1..] == Decimal(n);
  }

  lemma AnyHeaderAt(data: string, c: Cursor, mark: char, n: int, rest: string)
    requires CursorOk(data, c) && data[c.pos..] == ([mark] + Itoa(n) + CRLF) + rest
    requires -TWO_63 <= n < TWO_63 && (mark == '*' || mark == '$')
    ensures var line := ReadLine(data, c);
            && line.Got? && line.next.pos == c.pos + |Itoa(n)| + 3 && data[line.next.pos..] == rest
            && TrimSpace(line.value) != "" && TrimSpace(line.value)[0] == mark
            && Atoi(TrimSpace(line.value)[1..]) == Ok(n)
  {
    hide EndAfter;
    hide ReadLine;
    hide Itoa;
    hide Atoi;
    hide TrimSpace;
    var text := [mark] + Itoa(n);
    ItoaLine(n);
    LineEnds(text);
    Suffix(data, c.pos, text + CRLF, rest);
    LineAt(data, c, text + CRLF);
    assert text[|text| - 1] == Itoa(n)[|Itoa(n)| - 1];
    TrimLine(text);
    AtoiItoa(n);
    assert text[1..] == Itoa(n);
  }

  lemma ItoaLine(n: int)
    ensures Itoa(n) != "" && !IsSpace(Itoa(n)[|Itoa(n)| - 1]) && '\n' !in Itoa(n)
  {
    var digits := Decimal(if n < 0 then -n else n);
    assert Itoa(n)[|Itoa(n)| - 1] == digits[|digits| - 1];
    assert forall c :: c in Itoa(n) ==> c == '-' || c in digits;
  }

  // A string of length -1 is null.  Other lengths below zero, and those no memory can serve, are a panic.
  lemma BadLengths(data: string, c: Cursor, n: int, rest: string)
    requires CursorOk(data, c) && data[c.pos..] == ("$" + Itoa(n) + CRLF) + rest && -TWO_63 <= n < TWO_63
    requires n < 0 || n + 2 > 281474976710656
    ensures var r := ParseBulk(data, c);
            if n == -1 then r.Got? && r.value == Null && data[r.next.pos..] == rest else r == Panicked
  {
    hide ReadLine;
    hide Itoa;
    hide Atoi;
    hide TrimSpace;
    AnyHeaderAt(data, c, '$', n, rest);
  }

  // So it is with arrays.
  lemma BadCounts(data: string, c: Cursor, n: int, rest: string)
    requires CursorOk(data, c) && data[c.pos..] == ("*" + Itoa(n) + CRLF) + rest && -TWO_63 <= n < TWO_63
    requires n < 0 || 16 * n > 281474976710656
    ensures var r := ParseArray(data, c);
            if n == -1 then r.Got? && r.value == Null && data[r.next.pos..] == rest else r == Panicked
  {
    hide ReadLine;
    hide Itoa;
    hide Atoi;
    hide TrimSpace;
    AnyHeaderAt(data, c, '*', n, rest);
  }

  // n bytes can be had at once: the buffer holds them, or is empty and will be filled.
  ghost predicate Whole(c: Cursor, n: int) { c.pos == c.end || c.pos + n <= c.end }

  // Where the reader stands behind a line of the given width, the first byte of which it peeks at.
  ghost function AfterLine(total: int, c: Cursor, width: int): (h: Cursor)
    requires 0 <= c.pos <= c.end <= total
    ensures 0 <= h.pos <= h.end <= total
  {
    var d := if c.pos < c.end then c else Cursor(c.pos, FillTo(total, c.pos));
    if width <= 0 || c.pos + width > total then d
    else Cursor(c.pos + width, EndAfter(total, d, c.pos + width - 1))
  }

  lemma PeekLine(data: string, c: Cursor, width: int)
    requires CursorOk(data, c) && c.pos < |data|
    ensures AfterLine(|data|, c, width) == AfterLine(|data|, Peek(data, c).next, width)
  {
    hide EndAfter;
  }

  // Where it stands behind n bytes that it got at once.
  ghost function AfterBody(total: int, h: Cursor, n: int): (d: Cursor)
    requires 0 <= h.pos <= h.end <= total
    ensures 0 <= d.pos <= d.end <= total
  {
    if n <= 0 || h.pos + n > total || !Whole(h, n) then h
    else Cursor(h.pos + n, if h.pos < h.end then h.end else if n >= BUFFER then h.pos + n else FillTo(total, h.pos))
  }

  // The header line of an array or a bulk string: mark, number, line end.
  ghost function HeaderWidth(n: nat): int { |Decimal(n)| + 3 }

  // Where it stands behind the header for n.
  ghost function BehindHeader(total: int, c: Cursor, n: nat): (h: Cursor)
    requires 0 <= c.pos <= c.end <= total
    ensures 0 <= h.pos <= h.end <= total
  {
    AfterLine(total, c, HeaderWidth(n))
  }

  // What the reader makes of a string of which it gets only the first k bytes.
  ghost function Cut(s: string, k: nat): (r: string)
    ensures |r| == |s|
  {
    if k >= |s| then s else s[..k] + seq(|s| - k, _ => 0 as char)
  }

  lemma BodyRead(data: string, h: Cursor, s: string, rest: string)
    requires CursorOk(data, h) && data[h.pos..] == (s + CRLF) + rest
    ensures var r := ReadBytes(data, h, |s| + 2);
            && r.Got?
            && if Whole(h, |s| + 2) then
                 && r.value[..|s|] == s && r.next == AfterBody(|data|, h, |s| + 2)
                 && r.next.pos == h.pos + |s| + 2 && data[r.next.pos..] == rest
               else
                 r.value[..|s|] == Cut(s, h.end - h.pos) && r.next == Cursor(h.end, h.end)
  {
    var body := s + CRLF;
    Suffix(data, h.pos, body, rest);
    var r := ReadBytes(data, h, |s| + 2);
    var k := h.end - h.pos;
    if Whole(h, |s| + 2) {
      assert r.value == body + [];
    } else {
      assert data[h.pos..h.end] == body[..k] && r.value == body[..k] + seq(|s| + 2 - k, _ => 0 as char);
      if k >= |s| {
        assert r.value[..|s|] == s;
      } else {
        assert body[..k] == s[..k];
        assert r.value[..|s|] == s[..k] + seq(|s| - k, _ => 0 as char);
      }
    }
  }

  // A bulk string is read whole, or cut where the buffer ends.
  lemma BulkParses(data: string, c: Cursor, s: string, rest: string)
    requires CursorOk(data, c) && data[c.pos..] == ToBulkString(s) + rest && |data| <= MAX_ALLOC
    ensures var h := BehindHeader(|data|, c, |s|);
            && h.pos < |data| && data[h.pos..] == (s + CRLF) + rest
            && if Whole(h, |s| + 2) then
                 var r := ParseElement(data, c);
                 && r.Got? && r.value == Str(s) && r.next == AfterBody(|data|, h, |s| + 2)
                 && r.next.pos == c.pos + |ToBulkString(s)| && data[r.next.pos..] == rest
               else
                 ParseElement(data, c) == Got(Str(Cut(s, h.end - h.pos)), Cursor(h.end, h.end))
  {
    hide Atoi;
    hide TrimSpace;
    hide Decimal;
    hide ReadBytes;
    hide ReadLine;
    hide Whole;
    hide Cut;
    hide AfterBody;
    hide AfterLine;
    hide EndAfter;
    PeekLine(data, c, HeaderWidth(|s|));
    BulkShort(s);
    var head, body := "$" + Decimal(|s|) + CRLF, s + CRLF;
    var d := Peek(data, c).next;
    assert ToBulkString(s) + rest == head + (body + rest);
    assert data[c.pos] == data[c.pos..][0] == '$';
    HeaderAt(data, d, '$', |s|, body + rest);
    var h := BehindHeader(|data|, c, |s|);
    assert |ToBulkString(s)| == |head| + |body|;
    BodyRead(data, h, s, rest);
    assert ParseElement(data, c) == ParseBulk(data, d);
  }

  ghost function Strs(elements: seq<string>): (r: seq<Value>)
    ensures |r| == |elements|
  {
    seq(|elements|, i requires 0 <= i < |elements| => Str(elements[i]))
  }

  // By the lengths alone, the buffer holds every body when it is read.
  ghost predicate Fits(total: int, c: Cursor, elements: seq<string>)
    requires 0 <= c.pos <= c.end <= total
    decreases |elements|
  {
    elements == [] ||
    var h := BehindHeader(total, c, |elements[0]|);
    Whole(h, |elements[0]| + 2) && Fits(total, AfterBody(total, h, |elements[0]| + 2), elements[1..])
  }

  // The buffer ends inside the last body, and what it lacks of the string is zero bytes anyway.
  ghost predicate BarelyFits(total: int, c: Cursor, elements: seq<string>)
    requires 0 <= c.pos <= c.end <= total && elements != []
    decreases |elements|
  {
    var s, h := elements[0], BehindHeader(total, c, |elements[0]|);
    if |elements| == 1 then !Whole(h, |s| + 2) && Cut(s, h.end - h.pos) == s
    else Whole(h, |s| + 2) && BarelyFits(total, AfterBody(total, h, |s| + 2), elements[1..])
  }

  // Where the reader stands behind elements that fit.
  ghost function AfterBulks(total: int, c: Cursor, elements: seq<string>): (d: Cursor)
    requires 0 <= c.pos <= c.end <= total
    ensures 0 <= d.pos <= d.end <= total
    decreases |elements|
  {
    if elements == [] then c
    else AfterBulks(total, AfterBody(total, BehindHeader(total, c, |elements[0]|), |elements[0]| + 2), elements[1..])
  }

  // Elements that fit are read; the reader stands behind them.
  lemma {:induction false} ElementsFit(data: string, c: Cursor, elements: seq<string>, rest: string, sofar: seq<Value>)
    requires CursorOk(data, c) && data[c.pos..] == Bulks(elements) + rest && |data| <= MAX_ALLOC
    requires Fits(|data|, c, elements)
    ensures var r := ParseElements(data, c, |elements|, sofar);
            r.Got? && r.value == Array(sofar + Strs(elements)) && data[r.next.pos..] == rest
            && r.next == AfterBulks(|data|, c, elements)
    decreases |elements|
  {
    hide ParseElement;
    hide ToBulkString;
    hide Whole;
    hide Cut;
    hide AfterBody;
    hide BehindHeader;
    if elements == [] {
      assert sofar + Strs(elements) == sofar;
    } else {
      var bulk, more := ToBulkString(elements[0]), Bulks(elements[1..]);
      assert data[c.pos..] == bulk + (more + rest);
      BulkShort(elements[0]);
      BulkParses(data, c, elements[0], more + rest);
      ElementsFit(data, ParseElement(data, c).next, elements[1..], rest, sofar + [Str(elements[0])]);
      assert (sofar + [Str(elements[0])]) + Strs(elements[1..]) == sofar + Strs(elements);
    }
  }

  lemma BulkShort(s: string)
    ensures |s| + 2 < |ToBulkString(s)|
  {
  }

  lemma {:induction false} BulksLong(elements: seq<string>)
    ensures |Bulks(elements)| >= |elements|
  {
    if elements != [] {
      BulksLong(elements[1..]);
    }
  }

  lemma {:induction false} FlatStrs(elements: seq<string>)
    ensures Flat(Strs(elements)) == elements
  {
    if elements != [] {
      FlatStrs(elements[1..]);
      assert Strs(elements)[1..] == Strs(elements[1..]);
    }
  }

  ghost function Frames(commands: seq<Command>): string {
    if commands == [] then "" else ArrayOf(Words(commands[0])) + Frames(commands[1..])
  }

  ghost predicate Ascii(s: string) { forall i :: 0 <= i < |s| ==> s[i] < 128 as char }

  ghost predicate Normal(c: Command) { Ascii(c.name) && CommandName(c.name) == c.name }

  ghost predicate AllNormal(commands: seq<Command>) { forall i :: 0 <= i < |commands| ==> Normal(commands[i]) }

  // Small letters become capital letters, and nothing else changes.
  const SMALL: string := "abcdefghijklmnopqrstuvwxyz"
  const CAPITAL: string := "ABCDEFGHIJKLMNOPQRSTUVWXYZ"

  ghost predicate Capitalized(c: char, d: char) {
    (exists j :: 0 <= j < 26 && c == SMALL[j] && d == CAPITAL[j]) || (c !in SMALL && d == c)
  }

  // The name of a command as a parse returns it: trimmed, in capital letters.
  ghost predicate Names(s: string, name: string) {
    exists t :: Trimmed(s, t) && |name| == |t| && forall i :: 0 <= i < |t| ==> Capitalized(t[i], name[i])
  }

  lemma Letter(j: int)
    requires 0 <= j < 26
    ensures SMALL[j] == 'a' + j as char && CAPITAL[j] == 'A' + j as char
  {
  }

  lemma UpperCapitalizes(c: char)
    ensures Capitalized(c, Upper(c))
  {
    if 'a' <= c <= 'z' {
      var j := c as int - 'a' as int;
      Letter(j);
      assert c == SMALL[j] && Upper(c) == CAPITAL[j];
    } else {
      forall j | 0 <= j < 26 ensures SMALL[j] != c {
        Letter(j);
      }
    }
  }

  lemma CommandNames(s: string)
    ensures Names(s, CommandName(s))
  {
    hide TrimSpace;
    hide Trimmed;
    hide Upper;
    hide Capitalized;
    var t := TrimSpace(s);
    TrimReads(s, t);
    forall i | 0 <= i < |t| ensures Capitalized(t[i], CommandName(s)[i]) {
      UpperCapitalizes(t[i]);
    }
  }

  // Every command a parse returns has such a name; so what a master propagates has it too.
  lemma NamesAreNormal(s: string)
    ensures CommandName(CommandName(s)) == CommandName(s)
    ensures Ascii(s) ==> Ascii(CommandName(s))
  {
    var t := TrimSpace(s);
    TrimmedEnds(s);
    var u := ToUpper(t);
    if u != "" {
      assert u[0] == Upper(t[0]) && u[|u| - 1] == Upper(t[|t| - 1]);
      assert TrimSpace(u) == u;
    }
    assert ToUpper(u) == u;
  }

  lemma {:induction false} TrimmedEnds(s: string)
    ensures var t := TrimSpace(s); t != "" ==> !IsSpace(t[0]) && !IsSpace(t[|t| - 1])
    ensures Ascii(s) ==> Ascii(TrimSpace(s))
  {
    LeftTrimmed(s);
    RightTrimmed(TrimLeft(s));
  }

  lemma {:induction false} LeftTrimmed(s: string)
    ensures var t := TrimLeft(s); t != "" ==> !IsSpace(t[0])
    ensures Ascii(s) ==> Ascii(TrimLeft(s))
  {
    if s != [] && IsSpace(s[0]) {
      LeftTrimmed(s[1..]);
    }
  }

  lemma {:induction false} RightTrimmed(s: string)
    ensures var t := TrimRight(s); t <= s && (t != "" ==> !IsSpace(t[|t| - 1]))
  {
    if s != [] && IsSpace(s[|s| - 1]) {
      RightTrimmed(s[..|s| - 1]);
    }
  }

  // ---- the parse goes wrong exactly when a body does not fit ----

  lemma {:induction false} ElementsPrefix(data: string, c: Cursor, count: nat, sofar: seq<Value>)
    requires CursorOk(data, c) && ParseElements(data, c, count, sofar).Got?
    ensures ParseElements(data, c, count, sofar).value.Array?
            && sofar <= ParseElements(data, c, count, sofar).value.elements
    decreases count
  {
    hide ParseElement;
    if count > 0 {
      var e := ParseElement(data, c);
      ElementsPrefix(data, e.next, count - 1, sofar + [e.value]);
    }
  }

  // What is left of a cut string, when the missing part is zero bytes: no array and no bulk string starts so.
  ghost predicate Junk(data: string, pos: nat, rest: string) {
    && pos < |data| && data[pos] in [0 as char, '\r', '\n']
    && exists n: nat {:trigger Zeros(n)} :: data[pos..] in [Zeros(n) + CRLF + rest, "\n" + rest]
  }

  ghost function Zeros(n: nat): string { seq(n, _ => 0 as char) }

  lemma CutLeavesJunk(data: string, h: Cursor, s: string, rest: string)
    requires CursorOk(data, h) && data[h.pos..] == (s + CRLF) + rest && !Whole(h, |s| + 2)
    requires Cut(s, h.end - h.pos) == s
    ensures Junk(data, h.end, rest)
  {
    var k := h.end - h.pos;
    assert data[h.end..] == data[h.pos..][k..];
    if k <= |s| {
      assert s[k..] == Zeros(|s| - k) by {
        forall i | 0 <= i < |s| - k ensures s[k..][i] == 0 as char {
          assert Cut(s, k)[k + i] == s[k + i];
        }
      }
      assert data[h.end..] == Zeros(|s| - k) + CRLF + rest;
    } else {
      assert data[h.end..] == "\n" + rest;
      assert Zeros(0) == "";
    }
    assert data[h.end] == data[h.end..][0];
  }

  lemma NewlineTrims()
    ensures TrimSpace("\n") == ""
  {
  }

  lemma JunkTrims(n: nat)
    ensures var prefix := TrimSpace(Zeros(n) + CRLF); prefix == "" || prefix[0] == 0 as char
  {
    var line := Zeros(n) + CRLF;
    RightTrimmed(TrimLeft(line));
    if n == 0 {
      assert line == CRLF && line[1..] == "\n" && line[1..][1..] == "";
      assert TrimLeft(line) == "";
    } else {
      assert line[0] == 0 as char;
      assert TrimLeft(line) == line;
    }
  }

  // An array does not parse there, and the attempt takes the junk line.
  lemma JunkFails(data: string, c: Cursor, rest: string)
    requires CursorOk(data, c) && Junk(data, c.pos, rest)
    ensures ParseElement(data, c).Failed? && Peek(data, c).Got?
    ensures var r := ParseArray(data, Peek(data, c).next); r.Failed? && data[r.at.pos..] == rest
  {
    hide TrimSpace;
    var d := Peek(data, c).next;
    var n: nat :| data[c.pos..] in [Zeros(n) + CRLF + rest, "\n" + rest];
    if data[c.pos..] == "\n" + rest {
      assert Newline(data, d.pos) == c.pos;
      assert data[c.pos..c.pos + 1] == "\n";
      Suffix(data, c.pos, "\n", rest);
      NewlineTrims();
    } else {
      var line := Zeros(n) + CRLF;
      LineEnds(Zeros(n));
      Suffix(data, c.pos, line, rest);
      LineAt(data, d, line);
      JunkTrims(n);
    }
  }

  // The element list of a broken parse: one of the strings was cut.
  ghost predicate Spoiled(v: Value, sofar: seq<Value>, elements: seq<string>) {
    v.Array? && exists j, k: nat :: 0 <= j < |elements| && 0 < k && Cut(elements[j], k) != elements[j]
                 && sofar + Strs(elements[..j]) + [Str(Cut(elements[j], k))] <= v.elements
  }

  lemma {:induction false} ElementsBreak(data: string, c: Cursor, elements: seq<string>, rest: string,
                                         sofar: seq<Value>)
    requires CursorOk(data, c) && data[c.pos..] == Bulks(elements) + rest && |data| <= MAX_ALLOC
    requires !Fits(|data|, c, elements) && !BarelyFits(|data|, c, elements)
    ensures var r := ParseElements(data, c, |elements|, sofar);
            r.Got? ==> Spoiled(r.value, sofar, elements)
    decreases |elements|
  {
    hide ToBulkString;
    hide ParseArray;
    hide ParseBulk;
    hide BehindHeader;
    hide AfterBody;
    hide Decimal;
    hide Spoiled;
    var s, bulk, more := elements[0], ToBulkString(elements[0]), Bulks(elements[1..]);
    assert data[c.pos..] == bulk + (more + rest);
    BulkShort(s);
    BulkParses(data, c, s, more + rest);
    var h, e := BehindHeader(|data|, c, |s|), ParseElement(data, c);
    if Whole(h, |s| + 2) {
      ElementsBreak(data, e.next, elements[1..], rest, sofar + [Str(s)]);
      var r := ParseElements(data, c, |elements|, sofar);
      if r.Got? {
        SpoiledMore(r.value, sofar, elements);
      }
    } else {
      var k := h.end - h.pos;
      if Cut(s, k) == s {
        CutLeavesJunk(data, h, s, more + rest);
        JunkFails(data, e.next, more + rest);
      } else {
        var r := ParseElements(data, c, |elements|, sofar);
        if r.Got? {
          ElementsPrefix(data, e.next, |elements| - 1, sofar + [Str(Cut(s, k))]);
          SpoiledFirst(r.value, sofar, elements, k);
        }
      }
    }
  }

  lemma SpoiledFirst(v: Value, sofar: seq<Value>, elements: seq<string>, k: nat)
    requires elements != [] && v.Array? && 0 < k && Cut(elements[0], k) != elements[0]
    requires sofar + [Str(Cut(elements[0], k))] <= v.elements
    ensures Spoiled(v, sofar, elements)
  {
    assert Strs(elements[..0]) == [];
    assert sofar + Strs(elements[..0]) + [Str(Cut(elements[0], k))] == sofar + [Str(Cut(elements[0], k))];
  }

  lemma SpoiledMore(v: Value, sofar: seq<Value>, elements: seq<string>)
    requires elements != [] && Spoiled(v, sofar + [Str(elements[0])], elements[1..])
    ensures Spoiled(v, sofar, elements)
  {
    var j, k: nat :| 0 <= j < |elements[1..]| && 0 < k && Cut(elements[1..][j], k) != elements[1..][j]
      && (sofar + [Str(elements[0])]) + Strs(elements[1..][..j]) + [Str(Cut(elements[1..][j], k))] <= v.elements;
    assert elements[1..][j] == elements[j + 1];
    assert (sofar + [Str(elements[0])]) + Strs(elements[1..][..j]) == sofar + Strs(elements[..j + 1]);
  }

  // The last body is cut, and yet nothing is missing.
  lemma {:induction false} ElementsBarelyFit(data: string, c: Cursor, elements: seq<string>, rest: string,
                                             sofar: seq<Value>)
    requires CursorOk(data, c) && data[c.pos..] == Bulks(elements) + rest && |data| <= MAX_ALLOC
    requires elements != [] && BarelyFits(|data|, c, elements)
    ensures !Fits(|data|, c, elements)
    ensures var r := ParseElements(data, c, |elements|, sofar);
            r.Got? && r.value == Array(sofar + Strs(elements)) && Junk(data, r.next.pos, rest)
    decreases |elements|
  {
    hide ToBulkString;
    hide ParseElement;
    hide Junk;
    hide Whole;
    hide Cut;
    hide ReadLine;
    hide Decimal;
    hide BehindHeader;
    hide AfterBody;
    hide Strs;
    hide Fits;
    hide ParseArray;
    hide Bulks;
    var s, bulk, more := elements[0], ToBulkString(elements[0]), Bulks(elements[1..]);
    BulksNext(elements, rest);
    BulkShort(s);
    BulkParses(data, c, s, more + rest);
    BarelyIsNotFit(|data|, c, elements);
    StrsNext(sofar, elements);
    var h, e := BehindHeader(|data|, c, |s|), ParseElement(data, c);
    if |elements| == 1 {
      CutLeavesJunk(data, h, s, rest);
    } else {
      ElementsBarelyFit(data, e.next, elements[1..], rest, sofar + [Str(s)]);
    }
  }

  lemma {:induction false} BarelyIsNotFit(total: int, c: Cursor, elements: seq<string>)
    requires 0 <= c.pos <= c.end <= total && elements != [] && BarelyFits(total, c, elements)
    ensures !Fits(total, c, elements)
    decreases |elements|
  {
    var h := BehindHeader(total, c, |elements[0]|);
    if |elements| > 1 {
      BarelyIsNotFit(total, AfterBody(total, h, |elements[0]| + 2), elements[1..]);
    }
  }

  lemma BulksNext(elements: seq<string>, rest: string)
    requires elements != []
    ensures Bulks(elements) + rest == ToBulkString(elements[0]) + (Bulks(elements[1..]) + rest)
    ensures |elements| == 1 ==> Bulks(elements[1..]) + rest == rest
  {
    hide ToBulkString;
    Orders.Associates(ToBulkString(elements[0]), Bulks(elements[1..]), rest);
    if |elements| == 1 {
      assert elements[1..] == [] && Bulks([]) + rest == rest;
    }
  }

  lemma StrsNext(sofar: seq<Value>, elements: seq<string>)
    requires elements != []
    ensures (sofar + [Str(elements[0])]) + Strs(elements[1..]) == sofar + Strs(elements)
    ensures |elements| == 1 ==> sofar + [Str(elements[0])] == sofar + Strs(elements)
  {
  }

  // ---- whole buffers of commands ----

  // Every string of every command lies in the reader's buffer when it is read.  Only the end of the very
  // last one may be missing, if that is zero bytes.
  ghost predicate AllFit(total: int, c: Cursor, commands: seq<Command>)
    requires 0 <= c.pos <= c.end <= total
    decreases |commands|
  {
    commands == [] ||
    var words := Words(commands[0]);
    var h := BehindHeader(total, c, |words|);
    |words| <= MAX_COUNT &&
    if |commands| == 1 then Fits(total, h, words) || BarelyFits(total, h, words)
    else Fits(total, h, words) && AllFit(total, AfterBulks(total, h, words), commands[1..])
  }

  lemma ArrayStarts(data: string, c: Cursor, words: seq<string>, rest: string)
    requires CursorOk(data, c) && data[c.pos..] == ArrayOf(words) + rest && |data| <= MAX_ALLOC
    ensures Peek(data, c).Got?
    ensures var h := BehindHeader(|data|, c, |words|);
            && data[h.pos..] == Bulks(words) + rest
            && ParseArray(data, Peek(data, c).next)
               == if |words| > MAX_COUNT then Panicked else ParseElements(data, h, |words|, [])
  {
    hide ParseElements;
    hide ParseArray;
    hide ReadLine;
    hide AfterLine;
    ArrayParts(words, rest);
    hide ArrayOf;
    FirstOf(data, c.pos, ArrayOf(words), rest);
    var d := Peek(data, c).next;
    PeekLine(data, c, HeaderWidth(|words|));
    ArrayHeader(data, d, words, rest);
    ArrayUnfolds(data, d, |words|);
  }

  lemma ArrayHeader(data: string, c: Cursor, words: seq<string>, rest: string)
    requires CursorOk(data, c) && data[c.pos..] == ArrayOf(words) + rest && |data| <= MAX_ALLOC && c.pos < c.end
    ensures var line := ReadLine(data, c);
            && line.Got? && line.next == AfterLine(|data|, c, HeaderWidth(|words|))
            && data[line.next.pos..] == Bulks(words) + rest
            && TrimSpace(line.value) != "" && TrimSpace(line.value)[0] == '*'
            && Atoi(TrimSpace(line.value)[1..]) == Ok(|words|)
  {
    hide ReadLine;
    hide AfterLine;
    hide ArrayOf;
    hide TrimSpace;
    hide Atoi;
    FewWords(data, c.pos, words, rest);
    ArrayParts(words, rest);
    HeaderAt(data, c, '*', |words|, Bulks(words) + rest);
  }

  lemma ArrayParts(words: seq<string>, rest: string)
    ensures ArrayOf(words) != ""
    ensures ArrayOf(words) + rest == (['*'] + Decimal(|words|) + CRLF) + (Bulks(words) + rest)
  {
    hide Bulks;
    hide Decimal;
    var head := ['*'] + Decimal(|words|) + CRLF;
    assert (head + Bulks(words)) + rest == head + (Bulks(words) + rest);
  }

  lemma FewWords(data: string, pos: nat, words: seq<string>, rest: string)
    requires pos <= |data| && data[pos..] == ArrayOf(words) + rest && |data| <= MAX_ALLOC
    ensures |words| < TWO_63
  {
    BulksLong(words);
    assert |ArrayOf(words)| >= |Bulks(words)|;
  }

  lemma FirstOf(data: string, pos: nat, x: string, rest: string)
    requires pos <= |data| && data[pos..] == x + rest && x != ""
    ensures pos < |data| && data[pos] == x[0] && |x| + |rest| <= |data|
  {
    assert data[pos..][0] == x[0];
  }

  lemma ArrayUnfolds(data: string, c: Cursor, n: nat)
    requires CursorOk(data, c) && ReadLine(data, c).Got?
    requires var prefix := TrimSpace(ReadLine(data, c).value);
             prefix != "" && prefix[0] == '*' && Atoi(prefix[1..]) == Ok(n)
    ensures ParseArray(data, c)
         == if n > MAX_COUNT then Panicked else ParseElements(data, ReadLine(data, c).next, n, [])
  {
    hide ReadLine;
    hide ParseElements;
    hide TrimSpace;
    hide Atoi;
  }

  lemma {:induction false} RequestsPrefix(data: string, c: Cursor, sofar: seq<Command>)
    requires CursorOk(data, c)
    ensures var r := Requests(data, c, sofar); r.Some? ==> sofar <= r.value.0
    decreases |data| - c.pos
  {
    hide ParseArray;
    hide CommandName;
    if Peek(data, c).Got? {
      var r := ParseArray(data, Peek(data, c).next);
      if r.Got? {
        var flat := FlatOne(r.value);
        RequestsPrefix(data, r.next, if flat == [] then sofar else sofar + [Command(CommandName(flat[0]), flat[1..])]);
      }
    }
  }

  // A cut name is not the name, not even after trimming and folding.
  lemma CutName(name: string, k: nat)
    requires CommandName(name) == name && 0 < k && Cut(name, k) != name
    ensures CommandName(Cut(name, k)) != name
  {
    TrimmedEnds(name);
    var v := Cut(name, k);
    NormalEnds(name);
    assert v[0] == name[0] && v[|v| - 1] == 0 as char;
    assert TrimSpace(v) == v;
    forall i | 0 <= i < |v| ensures Upper(v[i]) == v[i] {
      if i < k {
        assert name[i] == ToUpper(TrimSpace(name))[i];
        assert Upper(name[i]) == name[i];
      }
    }
    assert ToUpper(v) == v;
  }

  lemma NormalEnds(name: string)
    requires CommandName(name) == name && name != ""
    ensures !IsSpace(name[0]) && !IsSpace(name[|name| - 1])
  {
    var t := TrimSpace(name);
    TrimmedEnds(name);
    assert name[0] == Upper(t[0]) && name[|name| - 1] == Upper(t[|t| - 1]);
  }

  lemma {:induction false} FlatConcat(a: seq<Value>, b: seq<Value>)
    ensures Flat(a + b) == Flat(a) + Flat(b)
  {
    if a == [] {
      assert a + b == b;
    } else {
      assert (a + b)[1..] == a[1..] + b;
      FlatConcat(a[1..], b);
    }
  }

  // From spoiled elements another command comes out.
  lemma SpoiledCommand(v: Value, c: Command)
    requires Normal(c) && Spoiled(v, [], Words(c))
    ensures var flat := FlatOne(v);
            flat != [] && Command(CommandName(flat[0]), flat[1..]) != c
  {
    var words := Words(c);
    var j, k: nat :| 0 <= j < |words| && 0 < k && Cut(words[j], k) != words[j]
      && [] + Strs(words[..j]) + [Str(Cut(words[j], k))] <= v.elements;
    var head := Strs(words[..j]) + [Str(Cut(words[j], k))];
    assert [] + Strs(words[..j]) + [Str(Cut(words[j], k))] == head;
    assert v.elements == head + v.elements[j + 1..];
    FlatConcat(head, v.elements[j + 1..]);
    FlatConcat(Strs(words[..j]), [Str(Cut(words[j], k))]);
    FlatStrs(words[..j]);
    assert Flat([Str(Cut(words[j], k))]) == [Cut(words[j], k)];
    var flat := FlatOne(v);
    assert flat[j] == Cut(words[j], k);
    if j == 0 {
      CutName(c.name, k);
    } else {
      assert flat[1..][j - 1] == flat[j] && c.args[j - 1] == words[j];
    }
  }

  // One step of the parse, with any name.
  lemma TakesNamed(data: string, c: Cursor, sofar: seq<Command>, command: Command)
    requires CursorOk(data, c) && Peek(data, c).Got?
    requires var r := ParseArray(data, Peek(data, c).next); r.Got? && FlatOne(r.value) == Words(command)
    ensures Requests(data, c, sofar)
         == Requests(data, ParseArray(data, Peek(data, c).next).next, sofar + [Taken(command)])
  {
    hide ParseArray;
    hide CommandName;
    hide FlatOne;
    assert Words(command)[1..] == command.args;
  }

  ghost function Taken(c: Command): Command { Command(CommandName(c.name), c.args) }

  ghost function AllTaken(commands: seq<Command>): seq<Command> {
    if commands == [] then [] else [Taken(commands[0])] + AllTaken(commands[1..])
  }

  lemma {:induction false} AllTakenAt(commands: seq<Command>)
    ensures |AllTaken(commands)| == |commands|
    ensures forall i :: 0 <= i < |commands| ==> AllTaken(commands)[i] == Taken(commands[i])
  {
    if commands != [] {
      AllTakenAt(commands[1..]);
    }
  }

  // One step of the parse: the command comes back.
  lemma TakesCommand(data: string, c: Cursor, sofar: seq<Command>, command: Command)
    requires CursorOk(data, c) && Peek(data, c).Got? && Normal(command)
    requires var r := ParseArray(data, Peek(data, c).next); r.Got? && FlatOne(r.value) == Words(command)
    ensures Requests(data, c, sofar)
         == Requests(data, ParseArray(data, Peek(data, c).next).next, sofar + [command])
  {
    hide ParseArray;
    hide CommandName;
    hide FlatOne;
    assert Words(command)[1..] == command.args;
  }

  // Junk is taken for a partial command.
  lemma StopsAtJunk(data: string, c: Cursor, sofar: seq<Command>, rest: string)
    requires CursorOk(data, c) && Junk(data, c.pos, rest)
    ensures Requests(data, c, sofar) == Some((sofar, rest))
  {
    hide ParseArray;
    hide Junk;
    JunkFails(data, c, rest);
  }

  // A parse that fails or spoils the command does not give it back.
  lemma TakesOther(data: string, c: Cursor, sofar: seq<Command>, command: Command)
    requires CursorOk(data, c) && Peek(data, c).Got? && Normal(command)
    requires var r := ParseArray(data, Peek(data, c).next); r.Got? ==> Spoiled(r.value, [], Words(command))
    ensures var all := Requests(data, c, sofar);
            all.Some? ==> all.value.0 == sofar || (sofar < all.value.0 && all.value.0[|sofar|] != command)
  {
    hide ParseArray;
    hide CommandName;
    hide Spoiled;
    var r := ParseArray(data, Peek(data, c).next);
    if r.Got? {
      SpoiledCommand(r.value, command);
      var flat := FlatOne(r.value);
      RequestsPrefix(data, r.next, sofar + [Command(CommandName(flat[0]), flat[1..])]);
    }
  }

  lemma RequestsEnd(data: string, c: Cursor, sofar: seq<Command>)
    requires CursorOk(data, c)
    ensures data[c.pos..] == "" ==> Requests(data, c, sofar) == Some((sofar, ""))
    ensures Peek(data, c).Got? && ParseArray(data, Peek(data, c).next).Panicked? ==> Requests(data, c, sofar).None?
  {
    hide ParseArray;
  }

  lemma {:induction false} RequestsParse(data: string, c: Cursor, commands: seq<Command>, sofar: seq<Command>)
    requires CursorOk(data, c) && data[c.pos..] == Frames(commands) && |data| <= MAX_ALLOC
    requires AllNormal(commands)
    ensures Requests(data, c, sofar) == Some((sofar + commands, "")) <==> AllFit(|data|, c, commands)
    decreases |commands|
  {
    hide ParseArray;
    hide ParseElements;
    hide ArrayOf;
    hide CommandName;
    hide Fits;
    hide BarelyFits;
    hide Junk;
    hide Spoiled;
    hide Requests;
    RequestsEnd(data, c, sofar);
    if commands == [] {
      assert sofar + commands == sofar;
    } else {
      var words, rest, next := Words(commands[0]), Frames(commands[1..]), sofar + [commands[0]];
      ArrayStarts(data, c, words, rest);
      var h, r := BehindHeader(|data|, c, |words|), ParseArray(data, Peek(data, c).next);
      assert Normal(commands[0]) && [] + Strs(words) == Strs(words);
      FlatStrs(words);
      assert next + commands[1..] == sofar + commands;
      if |words| > MAX_COUNT {
      } else if Fits(|data|, h, words) {
        ElementsFit(data, h, words, rest, []);
        TakesCommand(data, c, sofar, commands[0]);
        RequestsParse(data, r.next, commands[1..], next);
      } else if BarelyFits(|data|, h, words) {
        ElementsBarelyFit(data, h, words, rest, []);
        TakesCommand(data, c, sofar, commands[0]);
        StopsAtJunk(data, r.next, next, rest);
        assert |next| == |sofar| + 1;
        if |commands| == 1 {
          assert commands[1..] == [] && rest == "" && next + [] == next;
        }
      } else {
        ElementsBreak(data, h, words, rest, []);
        TakesOther(data, c, sofar, commands[0]);
        assert (sofar + commands)[|sofar|] == commands[0];
      }
    }
  }

  // Commands come back, all of them and nothing else, if and only if the reader's buffer holds each string
  // when it is read.
  lemma CommandsRoundTrip(commands: seq<Command>)
    requires |Frames(commands)| <= MAX_ALLOC && AllNormal(commands)
    ensures Requests(Frames(commands), Cursor(0, 0), []) == Some((commands, ""))
       <==> AllFit(|Frames(commands)|, Cursor(0, 0), commands)
  {
    RequestsParse(Frames(commands), Cursor(0, 0), commands, []);
    assert [] + commands == commands;
  }

  lemma {:induction false} ShortFits(total: int, c: Cursor, elements: seq<string>)
    requires 0 <= c.pos && c.pos + |Bulks(elements)| <= total <= BUFFER && c.end == total
    ensures Fits(total, c, elements)
    ensures AfterBulks(total, c, elements) == Cursor(c.pos + |Bulks(elements)|, total)
    decreases |elements|
  {
    hide Decimal;
    if elements != [] {
      var h := BehindHeader(total, c, |elements[0]|);
      assert |ToBulkString(elements[0])| == HeaderWidth(|elements[0]|) + |elements[0]| + 2;
      assert h == Cursor(c.pos + HeaderWidth(|elements[0]|), total);
      ShortFits(total, AfterBody(total, h, |elements[0]| + 2), elements[1..]);
    }
  }

  lemma {:induction false} ShortCommandsFit(total: int, c: Cursor, commands: seq<Command>)
    requires 0 <= c.pos <= c.end && c.pos + |Frames(commands)| == total <= BUFFER
    requires c.end == total || c == Cursor(0, 0)
    ensures AllFit(total, c, commands)
    decreases |commands|
  {
    hide Decimal;
    hide Bulks;
    hide Fits;
    if commands != [] {
      var words := Words(commands[0]);
      var h := BehindHeader(total, c, |words|);
      assert |ArrayOf(words)| == HeaderWidth(|words|) + |Bulks(words)|;
      BulksLong(words);
      assert h == Cursor(c.pos + HeaderWidth(|words|), total);
      ShortFits(total, h, words);
      ShortCommandsFit(total, AfterBulks(total, h, words), commands[1..]);
    }
  }

  // Commands that fit the reader's buffer together come back.
  lemma OneBuffer(commands: seq<Command>)
    requires |Frames(commands)| <= BUFFER && AllNormal(commands)
    ensures Requests(Frames(commands), Cursor(0, 0), []) == Some((commands, ""))
  {
    ShortCommandsFit(|Frames(commands)|, Cursor(0, 0), commands);
    CommandsRoundTrip(commands);
  }

  lemma {:induction false} ShortRequests(data: string, c: Cursor, commands: seq<Command>, sofar: seq<Command>)
    requires CursorOk(data, c) && data[c.pos..] == Frames(commands) && |data| <= BUFFER
    requires c.end == |data| || c == Cursor(0, 0)
    ensures Requests(data, c, sofar) == Some((sofar + AllTaken(commands), ""))
    decreases |commands|
  {
    hide ParseArray;
    hide ParseElements;
    hide CommandName;
    hide Fits;
    hide Requests;
    hide Decimal;
    hide Bulks;
    if commands == [] {
      RequestsEnd(data, c, sofar);
      assert sofar + AllTaken(commands) == sofar;
    } else {
      var words, rest := Words(commands[0]), Frames(commands[1..]);
      var h := BehindHeader(|data|, c, |words|);
      ArrayStarts(data, c, words, rest);
      assert |ArrayOf(words)| == HeaderWidth(|words|) + |Bulks(words)|;
      BulksLong(words);
      assert h == Cursor(c.pos + HeaderWidth(|words|), |data|);
      ShortFits(|data|, h, words);
      ElementsFit(data, h, words, rest, []);
      FlatStrs(words);
      assert [] + Strs(words) == Strs(words);
      TakesNamed(data, c, sofar, commands[0]);
      ShortRequests(data, AfterBulks(|data|, h, words), commands[1..], sofar + [Taken(commands[0])]);
      assert (sofar + [Taken(commands[0])]) + AllTaken(commands[1..]) == sofar + AllTaken(commands);
    }
  }

  // Frames with names in any letters and with white space around them come back as the named commands.
  lemma NamesAreCapitalized(commands: seq<Command>)
    requires |Frames(commands)| <= BUFFER
    ensures var r := Requests(Frames(commands), Cursor(0, 0), []);
            && r.Some? && r.value.1 == "" && |r.value.0| == |commands|
            && forall i :: 0 <= i < |commands| ==>
                 Names(commands[i].name, r.value.0[i].name) && r.value.0[i].args == commands[i].args
  {
    hide Names;
    hide CommandName;
    ShortRequests(Frames(commands), Cursor(0, 0), commands, []);
    assert [] + AllTaken(commands) == AllTaken(commands);
    AllTakenAt(commands);
    forall i | 0 <= i < |commands| ensures Names(commands[i].name, Taken(commands[i]).name) {
      CommandNames(commands[i].name);
    }
  }

  lemma {:induction false} FewDigits(n: nat, k: nat)
    requires k > 0 && n < Pow10(k)
    ensures |Decimal(n)| <= k
    decreases k
  {
    if n >= 10 {
      FewDigits(n / 10, k - 1);
    }
  }

  ghost function Pow10(k: nat): (p: nat)
    ensures p > 0
  {
    if k == 0 then 1 else 10 * Pow10(k - 1)
  }

  lemma LongDigits(n: nat)
    requires n <= MAX_ALLOC
    ensures |Decimal(n)| <= 15
  {
    assert Pow10(5) == 100000;
    assert Pow10(10) == 10000000000;
    assert Pow10(15) == 1000000000000000;
    FewDigits(n, 15);
  }

  lemma SetIsNormal(args: seq<string>)
    ensures AllNormal([Command("SET", args)])
  {
    assert TrimSpace("SET") == "SET";
    assert ToUpper("SET") == "SET";
  }

  lemma SetSize(key: string, arg: string)
    ensures |Frames([Command("SET", [key, arg])])|
         == HeaderWidth(3) + HeaderWidth(3) + 5 + HeaderWidth(|key|) + |key| + 2 + HeaderWidth(|arg|) + |arg| + 2
    ensures HeaderWidth(3) == 4
  {
    var c := Command("SET", [key, arg]);
    var words := Words(c);
    assert [c][1..] == [];
    assert words == ["SET", key, arg] && words[1..] == [key, arg] && words[1..][1..] == [arg] && [arg][1..] == [];
    assert Bulks([arg]) == ToBulkString(arg) + Bulks([]);
    assert Bulks([key, arg]) == ToBulkString(key) + Bulks([key, arg][1..]);
    assert Bulks(words) == ToBulkString("SET") + Bulks(words[1..]);
    assert Decimal(3) == "3";
  }

  // A command that is written and not read back: its last argument is longer than the buffer and does not end
  // in a zero byte.
  lemma {:induction false} LongArgumentIsCut(key: string, arg: string)
    requires |key| <= 100 && |arg| > BUFFER && arg[|arg| - 1] != 0 as char
    requires |Frames([Command("SET", [key, arg])])| <= MAX_ALLOC
    ensures Requests(Frames([Command("SET", [key, arg])]), Cursor(0, 0), []) != Some(([Command("SET", [key, arg])], ""))
  {
    hide Requests;
    hide Decimal;
    var c := Command("SET", [key, arg]);
    SetIsNormal([key, arg]);
    CommandsRoundTrip([c]);
    var total := |Frames([c])|;
    SetSize(key, arg);
    assert Pow10(3) == 1000;
    FewDigits(|key|, 3);
    LongDigits(|arg|);
    var words := Words(c);
    var h0 := BehindHeader(total, Cursor(0, 0), |words|);
    var c1 := AfterBody(total, BehindHeader(total, h0, 3), 5);
    var c2 := AfterBody(total, BehindHeader(total, c1, |key|), |key| + 2);
    var h := BehindHeader(total, c2, |arg|);
    assert h0.end == c1.end == c2.end == h.end == BUFFER && h.pos < h.end;
    assert words[1..] == [key, arg] && words[1..][1..] == [arg];
    assert Cut(arg, h.end - h.pos)[|arg| - 1] == 0 as char;
    assert !Fits(total, c2, [arg]) && !BarelyFits(total, c2, [arg]);
    assert !Fits(total, c1, words[1..]) && !BarelyFits(total, c1, words[1..]);
    assert !Fits(total, h0, words) && !BarelyFits(total, h0, words);
    assert !AllFit(total, Cursor(0, 0), [c]);
  }

  // The bytes that master and replica count for a command.
  function Size(c: Command): (n: nat)
    ensures n > 0
  {
    |ArrayOf(Words(c))|
  }

  ghost function TotalSize(commands: seq<Command>): nat {
    if commands == [] then 0 else Size(commands[0]) + TotalSize(commands[1..])
  }

  lemma {:induction false} SizeIsLength(commands: seq<Command>)
    ensures TotalSize(commands) == |Frames(commands)|
  {
    if commands != [] {
      SizeIsLength(commands[1..]);
    }
  }

  // The replica adds up the commands as it encodes them again; when they come back, that is the number of bytes
  // it was sent.
  lemma SameCount(commands: seq<Command>)
    requires |Frames(commands)| <= MAX_ALLOC && AllNormal(commands)
    requires AllFit(|Frames(commands)|, Cursor(0, 0), commands)
    ensures var r := Requests(Frames(commands), Cursor(0, 0), []);
            r.Some? && TotalSize(r.value.0) == |Frames(commands)|
  {
    hide Requests;
    hide AllFit;
    CommandsRoundTrip(commands);
    SizeIsLength(commands);
  }
}
