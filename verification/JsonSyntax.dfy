/** JSON texts (RFC 8259) as trees that keep their whitespace, and UTF-8. */
module JsonSyntax {
  import opened Bytes

  const QUOTE: byte := 34
  const COMMA: byte := 44
  const COLON: byte := 58
  const BACKSLASH: byte := 92
  const OPEN_BRACKET: byte := 91
  const CLOSE_BRACKET: byte := 93
  const OPEN_BRACE: byte := 123
  const CLOSE_BRACE: byte := 125

  predicate IsSpace(b: byte) {
    b == 32 || b == 9 || b == 10 || b == 13
  }

  predicate IsNumberByte(b: byte) {
    48 <= b <= 57 || b == 45 || b == 43 || b == 46 || b == 101 || b == 69
  }

  ghost predicate Spaces(s: bytes) {
    forall i :: 0 <= i < |s| ==> IsSpace(s[i])
  }

  ghost predicate NumberText(s: bytes) {
    s != [] && forall i :: 0 <= i < |s| ==> IsNumberByte(s[i])
  }

  /** What may stand between two quotes: every backslash takes the byte after it along. */
  predicate StringBody(s: bytes) {
    if s == [] then true
    else if s[0] == BACKSLASH then |s| >= 2 && StringBody(s[2..])
    else s[0] != QUOTE && StringBody(s[1..])
  }

  predicate Tail(b: byte) {
    0x80 <= b < 0xC0
  }

  /** How many bytes the character at the front takes, by table 3-7 of the Unicode
      Standard; zero if it is ill-formed. */
  function CharLen(s: bytes): (n: nat)
    requires s != []
    ensures n <= |s| && n <= 4
  {
    var a := s[0];
    if a < 0x80 then 1
    else if |s| < 2 || !Tail(s[1]) then 0
    else if 0xC2 <= a < 0xE0 then 2
    else if |s| < 3 || !Tail(s[2]) then 0
    else if 0xE0 <= a < 0xF0 then
      if (a == 0xE0 && s[1] < 0xA0) || (a == 0xED && s[1] >= 0xA0) then 0 else 3
    else if |s| < 4 || !Tail(s[3]) then 0
    else if 0xF0 <= a <= 0xF4 then
      if (a == 0xF0 && s[1] < 0x90) || (a == 0xF4 && s[1] >= 0x90) then 0 else 4
    else 0
  }

  /** `str::from_utf8` succeeds. */
  predicate Utf8(s: bytes) {
    s == [] || (CharLen(s) > 0 && Utf8(s[CharLen(s)..]))
  }

  lemma CharLenOfPrefix(a: bytes, b: bytes)
    requires a != [] && CharLen(a) > 0
    ensures CharLen(a + b) == CharLen(a) <= |a|
  {
  }

  lemma {:induction false} Utf8Concat(a: bytes, b: bytes)
    requires Utf8(a) && Utf8(b)
    ensures Utf8(a + b)
  {
    hide CharLen;
    if a == [] {
      assert a + b == b;
    } else {
      var n := CharLen(a);
      CharLenOfPrefix(a, b);
      Utf8Concat(a[n..], b);
      assert (a + b)[n..] == a[n..] + b;
    }
  }

  lemma {:induction false} AsciiIsUtf8(s: bytes)
    requires forall i :: 0 <= i < |s| ==> s[i] < 0x80
    ensures Utf8(s)
  {
    if s != [] {
      AsciiIsUtf8(s[1..]);
    }
  }

  lemma {:induction false} StringBodyConcat(a: bytes, b: bytes)
    requires StringBody(a) && StringBody(b)
    ensures StringBody(a + b)
  {
    if a == [] {
      assert a + b == b;
    } else {
      var n := if a[0] == BACKSLASH then 2 else 1;
      StringBodyConcat(a[n..], b);
      assert (a + b)[n..] == a[n..] + b;
    }
  }

  // ---------------------------------------------------------------- trees

  /** A value as written: string contents still escaped, whitespace in place. */
  datatype Tree =
    | Text(raw: bytes)
    | Num(digits: bytes)
    | Truth(b: bool)
    | Nil
    | Object(pad: bytes, members: Members)
    | Array(pad: bytes, items: Items)

  /** `before "key" after : gap value tail`, then a comma and the rest. */
  datatype Members =
    | NoMembers
    | Member(before: bytes, key: bytes, after: bytes, gap: bytes, value: Tree, tail: bytes, rest: Members)

  datatype Items =
    | NoItems
    | Item(before: bytes, value: Tree, tail: bytes, rest: Items)

  function Quoted(raw: bytes): bytes {
    [QUOTE] + raw + [QUOTE]
  }

  function Render(t: Tree): bytes
    decreases t
  {
    match t
    case Text(raw) => Quoted(raw)
    case Num(digits) => digits
    case Truth(b) => if b then Ascii("true") else Ascii("false")
    case Nil => Ascii("null")
    case Object(pad, members) => [OPEN_BRACE] + pad + RenderMembers(members) + [CLOSE_BRACE]
    case Array(pad, items) => [OPEN_BRACKET] + pad + RenderItems(items) + [CLOSE_BRACKET]
  }

  function RenderMembers(m: Members): bytes
    decreases m
  {
    match m
    case NoMembers => []
    case Member(before, key, after, gap, value, tail, rest) =>
      before + Quoted(key) + after + [COLON] + gap + Render(value) + tail
      + if rest.NoMembers? then [] else [COMMA] + RenderMembers(rest)
  }

  function RenderItems(m: Items): bytes
    decreases m
  {
    match m
    case NoItems => []
    case Item(before, value, tail, rest) =>
      before + Render(value) + tail + if rest.NoItems? then [] else [COMMA] + RenderItems(rest)
  }

  ghost predicate WellFormed(t: Tree)
    decreases t
  {
    match t
    case Text(raw) => StringBody(raw) && Utf8(raw)
    case Num(digits) => NumberText(digits)
    case Truth(_) => true
    case Nil => true
    case Object(pad, members) => Spaces(pad) && WellFormedMembers(members)
    case Array(pad, items) => Spaces(pad) && WellFormedItems(items)
  }

  ghost predicate WellFormedMembers(m: Members)
    decreases m
  {
    match m
    case NoMembers => true
    case Member(before, key, after, gap, value, tail, rest) =>
      && Spaces(before) && StringBody(key) && Utf8(key) && Spaces(after) && Spaces(gap)
      && WellFormed(value) && Spaces(tail) && WellFormedMembers(rest)
  }

  ghost predicate WellFormedItems(m: Items)
    decreases m
  {
    match m
    case NoItems => true
    case Item(before, value, tail, rest) =>
      Spaces(before) && WellFormed(value) && Spaces(tail) && WellFormedItems(rest)
  }

  lemma FirstByte(t: Tree)
    requires WellFormed(t)
    ensures var s := Render(t);
            && s != []
            && !IsSpace(s[0]) && s[0] != CLOSE_BRACKET && s[0] != CLOSE_BRACE && s[0] != COMMA
            && (t.Text? <==> s[0] == QUOTE) && (t.Object? <==> s[0] == OPEN_BRACE) && (t.Array? <==> s[0] == OPEN_BRACKET)
            && (t.Num? ==> IsNumberByte(s[0]))
            && (t.Truth? ==> s[0] == if t.b then 't' as int else 'f' as int)
            && (t.Nil? ==> s[0] == 'n' as int)
  {
  }
}
