/** The JSON writer: a buffer, an escaper, and commas that callers never write. */
module JsonWriter {
  import opened Bytes
  import opened JsonSyntax
  import opened JsonReader
  import opened JsonExact
  import H2Writer

  // ---------------------------------------------------------------- escaping

  function HexDigit(n: nat): byte
    requires n < 16
  {
    if n < 10 then 48 + n else 87 + n
  }

  function EscapeByte(b: byte): (t: bytes)
    ensures t != []
    ensures t == [b] <==> b >= 0x20 && b != QUOTE && b != BACKSLASH
  {
    if b == QUOTE then [BACKSLASH, QUOTE]
    else if b == BACKSLASH then [BACKSLASH, BACKSLASH]
    else if b == 10 then [BACKSLASH, 'n' as int]
    else if b == 13 then [BACKSLASH, 'r' as int]
    else if b == 9 then [BACKSLASH, 't' as int]
    else if b < 0x20 then [BACKSLASH, 'u' as int, 48, 48, HexDigit(b / 16), HexDigit(b % 16)]
    else [b]
  }

  function Escape(s: bytes): bytes {
    if s == [] then [] else EscapeByte(s[0]) + Escape(s[1..])
  }

  /** The character of a two-byte escape of section 7 of RFC 8259. */
  function ShortEscape(b: byte): Option<byte> {
    if b == QUOTE || b == BACKSLASH || b == 47 then Some(b)
    else if b == 'b' as int then Some(8)
    else if b == 'f' as int then Some(12)
    else if b == 'n' as int then Some(10)
    else if b == 'r' as int then Some(13)
    else if b == 't' as int then Some(9)
    else None
  }

  function HexValue(b: byte): Option<nat> {
    if 48 <= b <= 57 then Some(b - 48)
    else if 97 <= b <= 102 then Some(b - 87)
    else if 65 <= b <= 70 then Some(b - 55)
    else None
  }

  /** A reader of string contents by section 7 of RFC 8259, for escapes of ASCII only. */
  function Unescape(s: bytes): Option<bytes> {
    if s == [] then Some([])
    else if s[0] != BACKSLASH then Prepend(s[0], Unescape(s[1..]))
    else if |s| < 2 then None
    else if s[1] != 'u' as int then
      match ShortEscape(s[1])
      case None => None
      case Some(b) => Prepend(b, Unescape(s[2..]))
    else if |s| < 6 || s[2] != 48 || s[3] != 48 then None
    else
      match (HexValue(s[4]), HexValue(s[5]))
      case (Some(hi), Some(lo)) => if hi < 8 then Prepend(hi * 16 + lo, Unescape(s[6..])) else None
      case _ => None
  }

  function Prepend(b: byte, rest: Option<bytes>): Option<bytes> {
    if rest.None? then None else Some([b] + rest.value)
  }

  lemma UnescapeByte(b: byte, rest: bytes)
    ensures Unescape(EscapeByte(b) + rest) == Prepend(b, Unescape(rest))
  {
  }

  /** A decoder gets back what was escaped, so escaping never merges two strings. */
  lemma {:induction false} EscapeIsUndone(s: bytes)
    ensures Unescape(Escape(s)) == Some(s)
  {
    hide Unescape, EscapeByte;
    if s == [] {
      NothingToUnescape();
    } else {
      EscapeIsUndone(s[1..]);
      UnescapeByte(s[0], Escape(s[1..]));
      assert s == [s[0]] + s[1..];
    }
  }

  lemma NothingToUnescape()
    ensures Unescape([]) == Some([])
  {
  }

  lemma EscapeInjective(a: bytes, b: bytes)
    requires Escape(a) == Escape(b)
    ensures a == b
  {
    EscapeIsUndone(a);
    EscapeIsUndone(b);
  }

  lemma EscapeByteIsBody(b: byte)
    ensures StringBody(EscapeByte(b))
    ensures b < 0x80 ==> Utf8(EscapeByte(b))
  {
    var t := EscapeByte(b);
    if t == [b] {
      PlainIsBody(t);
    } else {
      PlainIsBody(t[2..]);
    }
    if b < 0x80 {
      AsciiIsUtf8(t);
    }
  }

  lemma {:induction false} PlainIsBody(s: bytes)
    requires forall i :: 0 <= i < |s| ==> s[i] != QUOTE && s[i] != BACKSLASH
    ensures StringBody(s)
  {
    if s != [] {
      PlainIsBody(s[1..]);
    }
  }

  lemma {:induction false} EscapeIsBody(s: bytes)
    ensures StringBody(Escape(s))
  {
    hide StringBody, EscapeByte;
    if s == [] {
      EmptyIsBody();
    } else {
      EscapeByteIsBody(s[0]);
      EscapeIsBody(s[1..]);
      StringBodyConcat(EscapeByte(s[0]), Escape(s[1..]));
    }
  }

  lemma EmptyIsBody()
    ensures StringBody([])
  {
  }

  lemma Associate(a: bytes, b: bytes, c: bytes)
    ensures a + (b + c) == a + b + c
  {
  }

  lemma {:induction false} EscapeConcat(a: bytes, b: bytes)
    ensures Escape(a + b) == Escape(a) + Escape(b)
  {
    hide EscapeByte;
    if a == [] {
      assert a + b == b;
    } else {
      EscapeConcat(a[1..], b);
      assert (a + b)[1..] == a[1..] + b;
      Associate(EscapeByte(a[0]), Escape(a[1..]), Escape(b));
    }
  }

  lemma {:induction false} HighBytesStay(s: bytes)
    requires forall i :: 0 <= i < |s| ==> s[i] >= 0x80
    ensures Escape(s) == s
  {
    if s != [] {
      HighBytesStay(s[1..]);
    }
  }

  lemma WholeCharIsUtf8(s: bytes)
    requires s != [] && CharLen(s) > 0
    ensures Utf8(s[..CharLen(s)])
    ensures s[0] >= 0x80 ==> forall i :: 0 <= i < CharLen(s) ==> s[i] >= 0x80
    ensures s[0] < 0x80 ==> CharLen(s) == 1
  {
  }

  lemma {:induction false} EscapeIsUtf8(s: bytes)
    requires Utf8(s)
    ensures Utf8(Escape(s))
    decreases |s|
  {
    hide CharLen, EscapeByte;
    if s != [] {
      var n := CharLen(s);
      var c := s[..n];
      WholeCharIsUtf8(s);
      if s[0] < 0x80 {
        EscapeByteIsBody(s[0]);
        assert c == [s[0]] && Escape(c) == EscapeByte(s[0]) + Escape(c[1..]) == EscapeByte(s[0]);
      } else {
        HighBytesStay(c);
      }
      EscapeIsUtf8(s[n..]);
      EscapeConcat(c, s[n..]);
      assert s == c + s[n..];
      Utf8Concat(Escape(c), Escape(s[n..]));
    }
  }

  // ---------------------------------------------------------------- documents

  /** What callers mean to write. */
  datatype Json =
    | JString(text: bytes)
    | JNumber(n: u64)
    | JBool(b: bool)
    | JRaw(tree: Tree)
    | JObject(fields: Fields)
    | JArray(list: List)

  datatype Fields = NoFields | Field(key: bytes, value: Json, rest: Fields)
  datatype List = NoElements | Element(value: Json, rest: List)

  /** The document as a tree: keys and strings escaped, no whitespace. */
  function Concrete(j: Json): Tree
    decreases j
  {
    match j
    case JString(text) => Tree.Text(Escape(text))
    case JNumber(n) => Num(Decimal(n))
    case JBool(b) => Truth(b)
    case JRaw(tree) => tree
    case JObject(fields) => Object([], ConcreteFields(fields))
    case JArray(list) => Array([], ConcreteList(list))
  }

  function ConcreteFields(f: Fields): Members
    decreases f
  {
    match f
    case NoFields => NoMembers
    case Field(key, value, rest) => Member([], Escape(key), [], [], Concrete(value), [], ConcreteFields(rest))
  }

  function ConcreteList(l: List): Items
    decreases l
  {
    match l
    case NoElements => NoItems
    case Element(value, rest) => Item([], Concrete(value), [], ConcreteList(rest))
  }

  /** Strings are UTF-8, as a Rust `str` always is, and verbatim values are well formed. */
  ghost predicate Legal(j: Json)
    decreases j
  {
    match j
    case JString(text) => Utf8(text)
    case JRaw(tree) => WellFormed(tree)
    case JObject(fields) => LegalFields(fields)
    case JArray(list) => LegalList(list)
    case _ => true
  }

  ghost predicate LegalFields(f: Fields)
    decreases f
  {
    f.Field? ==> Utf8(f.key) && Legal(f.value) && LegalFields(f.rest)
  }

  ghost predicate LegalList(l: List)
    decreases l
  {
    l.Element? ==> Legal(l.value) && LegalList(l.rest)
  }

  function Canonical(j: Json): bytes {
    Render(Concrete(j))
  }

  /** What the writer emits is well-formed JSON. */
  lemma {:induction false} ConcreteIsWellFormed(j: Json)
    requires Legal(j)
    ensures WellFormed(Concrete(j))
    decreases j
  {
    match j
    case JString(text) =>
      EscapeIsBody(text);
      EscapeIsUtf8(text);
    case JObject(fields) => FieldsAreWellFormed(fields);
    case JArray(list) => ListIsWellFormed(list);
    case _ =>
  }

  lemma {:induction false} FieldsAreWellFormed(f: Fields)
    requires LegalFields(f)
    ensures WellFormedMembers(ConcreteFields(f))
    decreases f
  {
    if f.Field? {
      EscapeIsBody(f.key);
      EscapeIsUtf8(f.key);
      ConcreteIsWellFormed(f.value);
      FieldsAreWellFormed(f.rest);
    }
  }

  lemma {:induction false} ListIsWellFormed(l: List)
    requires LegalList(l)
    ensures WellFormedItems(ConcreteList(l))
    decreases l
  {
    if l.Element? {
      ConcreteIsWellFormed(l.value);
      ListIsWellFormed(l.rest);
    }
  }

  // ---------------------------------------------------------------- the writer

  type Written = Result<(), JsonError>

  function Comma(needed: bool): bytes {
    if needed then [COMMA] else []
  }

  class Writer {
    const buf: array<byte>
    var pos: nat
    var needsComma: bool

    ghost predicate Valid()
      reads `pos
    {
      pos <= buf.Length
    }

    ghost function Text(): bytes
      reads `pos, buf
      requires Valid()
    {
      buf[..pos]
    }

    constructor (buf: array<byte>)
      ensures Valid() && this.buf == buf && pos == 0 && !needsComma
    {
      this.buf, pos, needsComma := buf, 0, false;
    }

    method Put(text: bytes) returns (r: Written)
      requires Valid()
      modifies `pos, buf
      ensures Valid() && Wrote(old(Text()), Text(), text, r.Ok?, buf.Length)
    {
      if pos + |text| > buf.Length {
        return Err(ShortBuffer);
      }
      forall i | 0 <= i < |text| { buf[pos + i] := text[i]; }
      pos := pos + |text|;
      r := Ok(());
      assert Text() == old(Text()) + text;
    }

    method Separate() returns (r: Written)
      requires Valid()
      modifies `pos, buf
      ensures Valid() && Wrote(old(Text()), Text(), Comma(needsComma), r.Ok?, buf.Length)
    {
      if needsComma {
        r := Put([COMMA]);
      } else {
        r := Ok(());
      }
    }

    method Begin(open: byte) returns (r: Written)
      requires Valid()
      modifies this, buf
      ensures Valid() && Wrote(old(Text()), Text(), Comma(old(needsComma)) + [open], r.Ok?, buf.Length)
      ensures r.Ok? ==> !needsComma
    {
      hide Wrote;
      r := Separate();
      ghost var mid, ok := Text(), r.Ok?;
      if r.Ok? {
        needsComma := false;
        r := Put([open]);
      }
      WroteThen(old(Text()), mid, Text(), Comma(old(needsComma)), [open], ok, r.Ok?, buf.Length);
    }

    method BeginObject() returns (r: Written)
      requires Valid()
      modifies this, buf
      ensures Valid() && Wrote(old(Text()), Text(), Comma(old(needsComma)) + [OPEN_BRACE], r.Ok?, buf.Length)
      ensures r.Ok? ==> !needsComma
    {
      r := Begin(OPEN_BRACE);
    }

    method BeginArray() returns (r: Written)
      requires Valid()
      modifies this, buf
      ensures Valid() && Wrote(old(Text()), Text(), Comma(old(needsComma)) + [OPEN_BRACKET], r.Ok?, buf.Length)
      ensures r.Ok? ==> !needsComma
    {
      r := Begin(OPEN_BRACKET);
    }

    method EndObject() returns (r: Written)
      requires Valid()
      modifies this, buf
      ensures Valid() && Wrote(old(Text()), Text(), [CLOSE_BRACE], r.Ok?, buf.Length) && needsComma
    {
      needsComma := true;
      r := Put([CLOSE_BRACE]);
    }

    method EndArray() returns (r: Written)
      requires Valid()
      modifies this, buf
      ensures Valid() && Wrote(old(Text()), Text(), [CLOSE_BRACKET], r.Ok?, buf.Length) && needsComma
    {
      needsComma := true;
      r := Put([CLOSE_BRACKET]);
    }

    /** All of the quoted, escaped string if it fits, and a first part of it otherwise. */
    method WriteString(s: bytes) returns (r: Written)
      requires Valid()
      modifies `pos, buf
      ensures Valid() && Wrote(old(Text()), Text(), Quoted(Escape(s)), r.Ok?, buf.Length)
    {
      hide Wrote, EscapeByte, Escape, Valid;
      PosInBuf();
      r := Put([QUOTE]);
      NothingToEscape(s);
      if r.Err? {
        WroteLess(old(Text()), Text(), [QUOTE] + Escape(s[..0]), Escape(s[0..]) + [QUOTE], buf.Length);
        QuotedInTwo(s, 0);
        return;
      }
      for n := 0 to |s|
        invariant Valid() && pos <= buf.Length && Wrote(old(Text()), Text(), [QUOTE] + Escape(s[..n]), true, buf.Length)
      {
        ghost var mid := Text();
        r := Put(EscapeByte(s[n]));
        EscapeSnoc(s, n);
        WroteThen(old(Text()), mid, Text(), [QUOTE] + Escape(s[..n]), EscapeByte(s[n]), true, r.Ok?, buf.Length);
        assert [QUOTE] + Escape(s[..n]) + EscapeByte(s[n]) == [QUOTE] + Escape(s[..n + 1]);
        if r.Err? {
          WroteLess(old(Text()), Text(), [QUOTE] + Escape(s[..n + 1]), Escape(s[n + 1..]) + [QUOTE], buf.Length);
          QuotedInTwo(s, n + 1);
          return;
        }
      }
      assert s[..|s|] == s;
      ghost var mid := Text();
      r := Put([QUOTE]);
      WroteThen(old(Text()), mid, Text(), [QUOTE] + Escape(s), [QUOTE], true, r.Ok?, buf.Length);
    }

    lemma PosInBuf()
      requires Valid()
      ensures pos <= buf.Length
    {
    }

    /** A member's key with its colon; afterwards no comma is due, so the next value joins it. */
    method Key(k: bytes) returns (r: Written)
      requires Valid()
      modifies this, buf
      ensures Valid() && Wrote(old(Text()), Text(), KeyText(k, old(needsComma)), r.Ok?, buf.Length)
      ensures r.Ok? ==> !needsComma
    {
      hide Wrote, Quoted, Escape;
      ghost var t1, t2, t3 := Comma(needsComma), Quoted(Escape(k)), [COLON];
      r := Separate();
      ghost var mid, ok := Text(), r.Ok?;
      if r.Ok? {
        r := WriteString(k);
      }
      WroteThen(old(Text()), mid, Text(), t1, t2, ok, r.Ok?, buf.Length);
      mid, ok := Text(), r.Ok?;
      if r.Ok? {
        needsComma := false;
        r := Put([COLON]);
      }
      WroteThen(old(Text()), mid, Text(), t1 + t2, t3, ok, r.Ok?, buf.Length);
    }

    /** The bytes as they are, taken to be a rendered value. */
    method RawValue(v: bytes) returns (r: Written)
      requires Valid()
      modifies this, buf
      ensures Valid() && Wrote(old(Text()), Text(), Comma(old(needsComma)) + v, r.Ok?, buf.Length)
      ensures r.Ok? ==> needsComma
    {
      hide Wrote;
      r := Separate();
      ghost var mid, ok := Text(), r.Ok?;
      if r.Ok? {
        r := Put(v);
      }
      WroteThen(old(Text()), mid, Text(), Comma(old(needsComma)), v, ok, r.Ok?, buf.Length);
      if r.Ok? {
        needsComma := true;
      }
    }

    method StrValue(v: bytes) returns (r: Written)
      requires Valid()
      modifies this, buf
      ensures Valid() && Wrote(old(Text()), Text(), Comma(old(needsComma)) + Quoted(Escape(v)), r.Ok?, buf.Length)
      ensures r.Ok? ==> needsComma
    {
      hide Wrote, Quoted, Escape;
      r := Separate();
      ghost var mid, ok := Text(), r.Ok?;
      if r.Ok? {
        r := WriteString(v);
      }
      WroteThen(old(Text()), mid, Text(), Comma(old(needsComma)), Quoted(Escape(v)), ok, r.Ok?, buf.Length);
      if r.Ok? {
        needsComma := true;
      }
    }

    method U64Value(v: u64) returns (r: Written)
      requires Valid()
      modifies this, buf
      ensures Valid() && Wrote(old(Text()), Text(), Comma(old(needsComma)) + Decimal(v), r.Ok?, buf.Length)
      ensures r.Ok? ==> needsComma
    {
      hide Decimal, Wrote;
      var digits := new byte[20];
      var s := H2Writer.WriteUsize(v, digits);
      r := RawValue(s);
    }

    method BoolValue(v: bool) returns (r: Written)
      requires Valid()
      modifies this, buf
      ensures Valid() && Wrote(old(Text()), Text(), Comma(old(needsComma)) + Render(Truth(v)), r.Ok?, buf.Length)
      ensures r.Ok? ==> needsComma
    {
      hide Wrote;
      r := RawValue(if v then Ascii("true") else Ascii("false"));
    }

    method FieldStr(k: bytes, v: bytes) returns (r: Written)
      requires Valid()
      modifies this, buf
      ensures Valid() && Wrote(old(Text()), Text(), MemberText(k, JString(v), old(needsComma)), r.Ok?, buf.Length)
      ensures r.Ok? ==> needsComma
    {
      hide Wrote, KeyText, Canonical, Quoted, Escape;
      ScalarText(v, 0, false);
      ghost var key := KeyText(k, needsComma);
      r := Key(k);
      ghost var mid, ok := Text(), r.Ok?;
      if r.Ok? {
        r := StrValue(v);
      }
      WroteThen(old(Text()), mid, Text(), key, Canonical(JString(v)), ok, r.Ok?, buf.Length);
    }

    method FieldU64(k: bytes, v: u64) returns (r: Written)
      requires Valid()
      modifies this, buf
      ensures Valid() && Wrote(old(Text()), Text(), MemberText(k, JNumber(v), old(needsComma)), r.Ok?, buf.Length)
      ensures r.Ok? ==> needsComma
    {
      hide Wrote, KeyText, Canonical, Decimal;
      ScalarText([], v, false);
      ghost var key := KeyText(k, needsComma);
      r := Key(k);
      ghost var mid, ok := Text(), r.Ok?;
      if r.Ok? {
        r := U64Value(v);
      }
      WroteThen(old(Text()), mid, Text(), key, Canonical(JNumber(v)), ok, r.Ok?, buf.Length);
    }

    method FieldBool(k: bytes, v: bool) returns (r: Written)
      requires Valid()
      modifies this, buf
      ensures Valid() && Wrote(old(Text()), Text(), MemberText(k, JBool(v), old(needsComma)), r.Ok?, buf.Length)
      ensures r.Ok? ==> needsComma
    {
      hide Wrote, KeyText, Canonical, Render;
      ScalarText([], 0, v);
      ghost var key := KeyText(k, needsComma);
      r := Key(k);
      ghost var mid, ok := Text(), r.Ok?;
      if r.Ok? {
        r := BoolValue(v);
      }
      WroteThen(old(Text()), mid, Text(), key, Canonical(JBool(v)), ok, r.Ok?, buf.Length);
    }
  }

  /** One member of an object. */
  function MemberText(k: bytes, value: Json, comma: bool): bytes {
    KeyText(k, comma) + Canonical(value)
  }

  lemma ScalarText(v: bytes, n: u64, b: bool)
    ensures Canonical(JString(v)) == Comma(false) + Quoted(Escape(v))
    ensures Canonical(JNumber(n)) == Comma(false) + Decimal(n)
    ensures Canonical(JBool(b)) == Comma(false) + Render(Truth(b))
  {
  }

  function KeyText(k: bytes, comma: bool): bytes {
    Comma(comma) + Quoted(Escape(k)) + [COLON]
  }

  lemma NothingToEscape(s: bytes)
    ensures [QUOTE] + Escape(s[..0]) == [QUOTE]
  {
  }

  lemma EscapeSnoc(s: bytes, n: nat)
    requires n < |s|
    ensures Escape(s[..n + 1]) == Escape(s[..n]) + EscapeByte(s[n])
  {
    assert s[..n + 1] == s[..n] + [s[n]] && [s[n]][1..] == [];
    EscapeConcat(s[..n], [s[n]]);
  }

  lemma Regroup(q: bytes, a: bytes, b: bytes)
    ensures q + a + (b + q) == q + (a + b) + q
  {
  }

  lemma QuotedInTwo(s: bytes, n: nat)
    requires n <= |s|
    ensures [QUOTE] + Escape(s[..n]) + (Escape(s[n..]) + [QUOTE]) == Quoted(Escape(s))
  {
    hide Escape;
    assert s[..n] + s[n..] == s;
    EscapeConcat(s[..n], s[n..]);
    Regroup([QUOTE], Escape(s[..n]), Escape(s[n..]));
  }

  /** A write that failed would have failed with more to write. */
  lemma WroteLess(before: bytes, after: bytes, text: bytes, more: bytes, capacity: nat)
    requires Wrote(before, after, text, false, capacity)
    ensures Wrote(before, after, text + more, false, capacity)
  {
  }
}
