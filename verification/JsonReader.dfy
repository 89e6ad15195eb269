/** The field extractor: a scanner over a complete text that copies nothing and skips
    nested values by counting one kind of bracket. */
module JsonReader {
  import opened Bytes
  import opened JsonSyntax

  datatype JsonError = ShortBuffer | Truncated | Malformed

  /** A value found in a text; strings are still escaped, nested values are raw. */
  datatype Value =
    | Str(raw: bytes)
    | Number(text: bytes)
    | Bool(b: bool)
    | Null
    | Raw(text: bytes)

  datatype Read<+T> = Got(value: T, next: nat) | Fail(error: JsonError)

  // ---------------------------------------------------------------- what is read

  function AfterSpaces(s: bytes, i: nat): (n: nat)
    requires i <= |s|
    ensures i <= n <= |s|
    ensures n < |s| ==> !IsSpace(s[n])
    decreases |s| - i
  {
    if i < |s| && IsSpace(s[i]) then AfterSpaces(s, i + 1) else i
  }

  function AfterNumber(s: bytes, i: nat): (n: nat)
    requires i <= |s|
    ensures i <= n <= |s|
    ensures n < |s| ==> !IsNumberByte(s[n])
    decreases |s| - i
  {
    if i < |s| && IsNumberByte(s[i]) then AfterNumber(s, i + 1) else i
  }

  /** Just past the quote that closes a string, from inside it. */
  function AfterQuote(s: bytes, i: nat): (n: Option<nat>)
    ensures n.Some? ==> i < n.value <= |s|
    decreases |s| - i
  {
    if i >= |s| then None
    else if s[i] == QUOTE then Some(i + 1)
    else if s[i] != BACKSLASH then AfterQuote(s, i + 1)
    else if i + 1 >= |s| then None
    else AfterQuote(s, i + 2)
  }

  function ReadString(s: bytes, i: nat): (r: Read<bytes>)
    ensures r.Got? ==> i < r.next <= |s|
  {
    if i >= |s| || s[i] != QUOTE then Fail(Malformed)
    else
      match AfterQuote(s, i + 1)
      case None => Fail(Truncated)
      case Some(n) => if Utf8(s[i + 1..n - 1]) then Got(s[i + 1..n - 1], n) else Fail(Malformed)
  }

  /** Where a nested value ends, from inside it at a depth: only brackets of one kind
      count, and none within strings. */
  function AfterNested(s: bytes, i: nat, depth: nat, open: byte, close: byte): (r: Read<()>)
    requires depth > 0
    ensures r.Got? ==> i < r.next <= |s|
    decreases |s| - i
  {
    if i >= |s| then Fail(Truncated)
    else if s[i] == QUOTE then
      match ReadString(s, i)
      case Fail(e) => Fail(e)
      case Got(_, n) => AfterNested(s, n, depth, open, close)
    else if s[i] == open then AfterNested(s, i + 1, depth + 1, open, close)
    else if s[i] != close then AfterNested(s, i + 1, depth, open, close)
    else if depth == 1 then Got((), i + 1)
    else AfterNested(s, i + 1, depth - 1, open, close)
  }

  function ReadNested(s: bytes, i: nat, open: byte, close: byte): (r: Read<bytes>)
    requires i < |s|
    ensures r.Got? ==> i < r.next <= |s|
  {
    match AfterNested(s, i + 1, 1, open, close)
    case Fail(e) => Fail(e)
    case Got(_, n) => Got(s[i..n], n)
  }

  function ReadLiteral(s: bytes, i: nat, text: bytes, value: Value): (r: Read<Value>)
    requires text != []
    ensures r.Got? ==> i < r.next <= |s|
  {
    if i + |text| <= |s| && s[i..i + |text|] == text then Got(value, i + |text|) else Fail(Malformed)
  }

  function ReadValue(s: bytes, i: nat): (r: Read<Value>)
    ensures r.Got? ==> i < r.next <= |s|
  {
    if i >= |s| then Fail(Truncated)
    else if s[i] == QUOTE then
      match ReadString(s, i)
      case Fail(e) => Fail(e)
      case Got(raw, n) => Got(Str(raw), n)
    else if s[i] == OPEN_BRACE || s[i] == OPEN_BRACKET then
      match ReadNested(s, i, s[i], if s[i] == OPEN_BRACE then CLOSE_BRACE else CLOSE_BRACKET)
      case Fail(e) => Fail(e)
      case Got(text, n) => Got(Raw(text), n)
    else if s[i] == 't' as int then ReadLiteral(s, i, Ascii("true"), Bool(true))
    else if s[i] == 'f' as int then ReadLiteral(s, i, Ascii("false"), Bool(false))
    else if s[i] == 'n' as int then ReadLiteral(s, i, Ascii("null"), Null)
    else
      var n := AfterNumber(s, i);
      if n == i then Fail(Malformed) else Got(Number(s[i..n]), n)
  }

  /** `"key" : value`, with any whitespace around its parts. */
  datatype Entry = Entry(key: bytes, value: Value)

  function ReadEntry(s: bytes, i: nat): (r: Read<Entry>)
    requires i <= |s|
    ensures r.Got? ==> i < r.next <= |s|
  {
    match ReadString(s, AfterSpaces(s, i))
    case Fail(e) => Fail(e)
    case Got(key, n) =>
      var colon := AfterSpaces(s, n);
      if colon >= |s| || s[colon] != COLON then Fail(Malformed)
      else
        match ReadValue(s, AfterSpaces(s, colon + 1))
        case Fail(e) => Fail(e)
        case Got(value, m) => Got(Entry(key, value), m)
  }

  /** The first member from `i` on whose key is written `want`. */
  function FieldFrom(s: bytes, i: nat, want: bytes): Result<Option<Value>, JsonError>
    requires i <= |s|
    decreases |s| - i
  {
    match ReadEntry(s, i)
    case Fail(e) => Err(e)
    case Got(entry, n) =>
      var next := AfterSpaces(s, n);
      if entry.key == want then Ok(Some(entry.value))
      else if next < |s| && s[next] == COMMA then FieldFrom(s, next + 1, want)
      else if next < |s| && s[next] == CLOSE_BRACE then Ok(None)
      else Err(Malformed)
  }

  function FieldOf(s: bytes, want: bytes): Result<Option<Value>, JsonError> {
    var start := AfterSpaces(s, 0);
    if start >= |s| || s[start] != OPEN_BRACE then Err(Malformed)
    else
      var first := AfterSpaces(s, start + 1);
      if first < |s| && s[first] == CLOSE_BRACE then Ok(None) else FieldFrom(s, first, want)
  }

  /** The elements still to come: the first is announced by a bracket, later ones by a
      comma, and anything unexpected ends the sequence. */
  function ElementsFrom(s: bytes, i: nat, started: bool): seq<Value>
    requires i <= |s|
    decreases |s| - i
  {
    var sep := AfterSpaces(s, i);
    if sep >= |s| || s[sep] != (if started then COMMA else OPEN_BRACKET) then []
    else
      var first := AfterSpaces(s, sep + 1);
      if first < |s| && s[first] == CLOSE_BRACKET then []
      else
        match ReadValue(s, first)
        case Fail(_) => []
        case Got(value, n) => [value] + ElementsFrom(s, n, true)
  }

  // ---------------------------------------------------------------- the code

  class Parser {
    const s: bytes
    var i: nat

    ghost predicate Valid()
      reads this
    {
      i <= |s|
    }

    constructor (s: bytes)
      ensures Valid() && this.s == s && i == 0
    {
      this.s, i := s, 0;
    }

    function Peek(): (b: Option<byte>)
      reads this
      ensures b == if i < |s| then Some(s[i]) else None
    {
      if i < |s| then Some(s[i]) else None
    }

    method Next() returns (b: Option<byte>)
      requires Valid()
      modifies this
      ensures Valid() && b == old(Peek()) && i == old(i) + if b.Some? then 1 else 0
    {
      b := Peek();
      if b.Some? {
        i := i + 1;
      }
    }

    method Expect(b: byte) returns (r: Result<(), JsonError>)
      requires Valid()
      modifies this
      ensures Valid() && r == if old(Peek()) == Some(b) then Ok(()) else Err(Malformed)
      ensures r.Ok? ==> i == old(i) + 1
    {
      var got := Next();
      r := if got == Some(b) then Ok(()) else Err(Malformed);
    }

    method SkipWs()
      requires Valid()
      modifies this
      ensures Valid() && i == AfterSpaces(s, old(i))
    {
      while i < |s| && IsSpace(s[i])
        invariant Valid() && AfterSpaces(s, i) == AfterSpaces(s, old(i))
      {
        i := i + 1;
      }
    }

    /** For any bytes, what `ReadString` says of the rest, escapes still in it. */
    method ParseString() returns (r: Result<bytes, JsonError>)
      requires Valid()
      modifies this
      ensures Valid() && Agrees(r, ReadString(s, old(i)), i)
    {
      hide Utf8;
      var quote := Expect(QUOTE);
      if quote.Err? {
        return Err(quote.error);
      }
      var start := i;
      while true
        invariant Valid() && start <= i && AfterQuote(s, i) == AfterQuote(s, start)
        decreases |s| - i
      {
        var b := Next();
        if b.None? {
          return Err(Truncated);
        }
        if b.value == QUOTE {
          var raw := s[start..i - 1];
          return if Utf8(raw) then Ok(raw) else Err(Malformed);
        }
        if b.value == BACKSLASH {
          // Two bytes at a time here: a quote behind a backslash is passed over.
          var escaped := Next();
          if escaped.None? {
            return Err(Truncated);
          }
        }
      }
    }

    method ParseLiteral(text: bytes, value: Value) returns (r: Result<Value, JsonError>)
      requires Valid() && text != []
      modifies this
      ensures Valid() && Agrees(r, ReadLiteral(s, old(i), text, value), i)
    {
      if |s| < i + |text| || s[i..i + |text|] != text {
        return Err(Malformed);
      }
      i := i + |text|;
      r := Ok(value);
    }

    /** Counts one kind of bracket outside strings until it balances; the depth stays a natural
        number. */
    method SkipNested(open: byte, close: byte) returns (r: Result<bytes, JsonError>)
      requires Valid() && i < |s| && s[i] == open && open != close && open != QUOTE && close != QUOTE
      modifies this
      ensures Valid() && Agrees(r, ReadNested(s, old(i), open, close), i)
    {
      hide ReadString;
      var start := i;
      var depth: nat := 0;
      while true
        invariant Valid() && start <= i
        invariant depth == 0 ==> i == start
        invariant depth > 0 ==> AfterNested(s, i, depth, open, close) == AfterNested(s, start + 1, 1, open, close)
        decreases |s| - i
      {
        var b := Next();
        if b.None? {
          return Err(Truncated);
        }
        if b.value == QUOTE {
          i := i - 1;
          var inner := ParseString();
          if inner.Err? {
            return Err(inner.error);
          }
        } else if b.value == open {
          depth := depth + 1;
        } else if b.value == close {
          depth := depth - 1;
          if depth == 0 {
            return Ok(s[start..i]);
          }
        }
      }
    }

    method ParseValue() returns (r: Result<Value, JsonError>)
      requires Valid()
      modifies this
      ensures Valid() && Agrees(r, ReadValue(s, old(i)), i)
    {
      hide ReadString, ReadNested, ReadLiteral;
      var first := Peek();
      if first.None? {
        return Err(Truncated);
      }
      var b := first.value;
      if b == QUOTE {
        var text := ParseString();
        return if text.Ok? then Ok(Str(text.value)) else Err(text.error);
      } else if b == OPEN_BRACE {
        var text := SkipNested(OPEN_BRACE, CLOSE_BRACE);
        return if text.Ok? then Ok(Raw(text.value)) else Err(text.error);
      } else if b == OPEN_BRACKET {
        var text := SkipNested(OPEN_BRACKET, CLOSE_BRACKET);
        return if text.Ok? then Ok(Raw(text.value)) else Err(text.error);
      } else if b == 't' as int {
        r := ParseLiteral(Ascii("true"), Bool(true));
      } else if b == 'f' as int {
        r := ParseLiteral(Ascii("false"), Bool(false));
      } else if b == 'n' as int {
        r := ParseLiteral(Ascii("null"), Null);
      } else {
        var start := i;
        while i < |s| && IsNumberByte(s[i])
          invariant Valid() && start <= i && AfterNumber(s, i) == AfterNumber(s, start)
        {
          i := i + 1;
        }
        return if i == start then Err(Malformed) else Ok(Number(s[start..i]));
      }
    }

    method ParseEntry() returns (r: Result<Entry, JsonError>)
      requires Valid()
      modifies this
      ensures Valid() && Agrees(r, ReadEntry(s, old(i)), i)
    {
      hide ReadString, ReadValue, AfterSpaces;
      SkipWs();
      var key := ParseString();
      if key.Err? {
        return Err(key.error);
      }
      SkipWs();
      var colon := Expect(COLON);
      if colon.Err? {
        return Err(colon.error);
      }
      SkipWs();
      var value := ParseValue();
      if value.Err? {
        return Err(value.error);
      }
      r := Ok(Entry(key.value, value.value));
    }
  }

  /** A parser's answer is what the specification reads, and on success it stops there. */
  ghost predicate Agrees<T>(r: Result<T, JsonError>, spec: Read<T>, at: nat) {
    match spec
    case Fail(e) => r == Err(e)
    case Got(value, next) => r == Ok(value) && at == next
  }

  /** For any bytes, the first member with that key or the first error before it. */
  method Field(json: bytes, want: bytes) returns (r: Result<Option<Value>, JsonError>)
    ensures r == FieldOf(json, want)
  {
    hide ReadEntry;
    var p := new Parser(json);
    p.SkipWs();
    var ok := p.Expect(OPEN_BRACE);
    if ok.Err? {
      return Err(ok.error);
    }
    p.SkipWs();
    if p.Peek() == Some(CLOSE_BRACE) {
      return Ok(None);
    }
    while true
      invariant p.Valid() && p.s == json && FieldFrom(json, p.i, want) == FieldOf(json, want)
      decreases |json| - p.i
    {
      var entry := p.ParseEntry();
      if entry.Err? {
        return Err(entry.error);
      }
      if entry.value.key == want {
        return Ok(Some(entry.value.value));
      }
      p.SkipWs();
      var sep := p.Next();
      if sep == Some(COMMA) {
        continue;
      }
      return if sep == Some(CLOSE_BRACE) then Ok(None) else Err(Malformed);
    }
  }

  /** A cursor over an array: `Next` yields what it has left. */
  class Elements {
    const p: Parser
    var started: bool
    var done: bool

    ghost predicate Valid()
      reads this, p
    {
      p.Valid()
    }

    ghost function Remaining(): seq<Value>
      reads this, p
      requires Valid()
    {
      if done then [] else ElementsFrom(p.s, p.i, started)
    }

    constructor (raw: bytes)
      ensures Valid() && fresh(p) && Remaining() == ElementsFrom(raw, 0, false)
    {
      p := new Parser(raw);
      started, done := false, false;
    }

    method Next() returns (r: Option<Value>)
      requires Valid()
      modifies this, p
      ensures Valid()
      ensures if old(Remaining()) == [] then r == None && Remaining() == []
              else r == Some(old(Remaining())[0]) && Remaining() == old(Remaining())[1..]
    {
      hide ReadValue;
      if done {
        return None;
      }
      p.SkipWs();
      var sep := p.Next();
      if sep != Some(if started then COMMA else OPEN_BRACKET) {
        started, done := true, true;
        return None;
      }
      started := true;
      p.SkipWs();
      if p.Peek() == Some(CLOSE_BRACKET) {
        done := true;
        return None;
      }
      var value := p.ParseValue();
      if value.Err? {
        done := true;
        return None;
      }
      r := Some(value.value);
    }
  }
}
