/** The extractor is exact on every well-formed text, whatever its whitespace, escapes and
    nesting. */
module JsonExact {
  import opened Bytes
  import opened JsonSyntax
  import opened JsonReader

  /** `t` stands at position `i` of `s`. */
  ghost predicate At(s: bytes, i: nat, t: bytes) {
    i + |t| <= |s| && s[i..i + |t|] == t
  }

  lemma AtBoth(s: bytes, i: nat, a: bytes, b: bytes)
    requires At(s, i, a + b)
    ensures At(s, i, a) && At(s, i + |a|, b)
  {
    assert s[i..i + |a|] == (a + b)[..|a|];
    assert s[i + |a|..i + |a| + |b|] == (a + b)[|a|..];
  }

  lemma AtByte(s: bytes, i: nat, b: byte)
    requires At(s, i, [b])
    ensures i < |s| && s[i] == b
  {
  }

  lemma AtFirst(s: bytes, i: nat, t: bytes)
    requires At(s, i, t) && t != []
    ensures i < |s| && s[i] == t[0] && At(s, i + 1, t[1..])
  {
  }

  // ---------------------------------------------------------------- tokens

  lemma {:induction false} SpacesAreSkipped(s: bytes, i: nat, pad: bytes)
    requires At(s, i, pad) && Spaces(pad)
    ensures AfterSpaces(s, i) == AfterSpaces(s, i + |pad|)
    decreases |pad|
  {
    if pad != [] {
      AtFirst(s, i, pad);
      SpacesAreSkipped(s, i + 1, pad[1..]);
    }
  }

  /** Whitespace before something that is not. */
  lemma SpacesThen(s: bytes, i: nat, pad: bytes, b: byte)
    requires At(s, i, pad) && Spaces(pad) && At(s, i + |pad|, [b]) && !IsSpace(b)
    ensures AfterSpaces(s, i) == i + |pad| < |s| && s[i + |pad|] == b
  {
    SpacesAreSkipped(s, i, pad);
    AtByte(s, i + |pad|, b);
  }

  lemma {:induction false} NumberIsTaken(s: bytes, i: nat, digits: bytes)
    requires At(s, i, digits) && forall k :: 0 <= k < |digits| ==> IsNumberByte(digits[k])
    requires i + |digits| < |s| ==> !IsNumberByte(s[i + |digits|])
    ensures AfterNumber(s, i) == i + |digits|
    decreases |digits|
  {
    if digits != [] {
      AtFirst(s, i, digits);
      NumberIsTaken(s, i + 1, digits[1..]);
    }
  }

  lemma {:induction false} StringEnds(s: bytes, i: nat, raw: bytes)
    requires At(s, i, raw) && StringBody(raw) && At(s, i + |raw|, [QUOTE])
    ensures AfterQuote(s, i) == Some(i + |raw| + 1)
    decreases |raw|
  {
    if raw == [] {
      AtByte(s, i, QUOTE);
    } else {
      AtFirst(s, i, raw);
      if raw[0] == BACKSLASH {
        AtFirst(s, i + 1, raw[1..]);
        assert raw[1..][1..] == raw[2..];
        StringEnds(s, i + 2, raw[2..]);
      } else {
        StringEnds(s, i + 1, raw[1..]);
      }
    }
  }

  lemma StringIsRead(s: bytes, i: nat, raw: bytes)
    requires At(s, i, Quoted(raw)) && StringBody(raw) && Utf8(raw)
    ensures ReadString(s, i) == Got(raw, i + |Quoted(raw)|)
  {
    hide StringBody, Utf8, AfterQuote;
    AtBoth(s, i, [QUOTE] + raw, [QUOTE]);
    AtBoth(s, i, [QUOTE], raw);
    AtByte(s, i, QUOTE);
    StringEnds(s, i + 1, raw);
  }

  // ---------------------------------------------------------------- nested values

  predicate Kind(open: byte, close: byte) {
    (open == OPEN_BRACE && close == CLOSE_BRACE) || (open == OPEN_BRACKET && close == CLOSE_BRACKET)
  }

  /** Bytes that no scan for a nested value's end reacts to. */
  predicate Quiet(b: byte) {
    b != QUOTE && b != OPEN_BRACE && b != CLOSE_BRACE && b != OPEN_BRACKET && b != CLOSE_BRACKET
  }

  /** Scanning over `t` leaves the depth as it was. */
  ghost predicate Skipped(s: bytes, i: nat, t: bytes, depth: nat, open: byte, close: byte)
    requires depth > 0
  {
    AfterNested(s, i, depth, open, close) == AfterNested(s, i + |t|, depth, open, close)
  }

  lemma {:induction false} QuietIsSkipped(s: bytes, i: nat, t: bytes, depth: nat, open: byte, close: byte)
    requires At(s, i, t) && depth > 0 && Kind(open, close)
    requires forall k :: 0 <= k < |t| ==> Quiet(t[k])
    ensures Skipped(s, i, t, depth, open, close)
    decreases |t|
  {
    if t != [] {
      AtFirst(s, i, t);
      QuietIsSkipped(s, i + 1, t[1..], depth, open, close);
    }
  }

  lemma StringIsSkipped(s: bytes, i: nat, raw: bytes, depth: nat, open: byte, close: byte)
    requires At(s, i, Quoted(raw)) && StringBody(raw) && Utf8(raw) && depth > 0 && Kind(open, close)
    ensures Skipped(s, i, Quoted(raw), depth, open, close)
  {
    hide StringBody, Utf8, ReadString;
    StringIsRead(s, i, raw);
    AtFirst(s, i, Quoted(raw));
  }

  /** Where the parts of a member stand. */
  lemma MemberParts(s: bytes, i: nat, m: Members) returns (key: nat, colon: nat, value: nat, tail: nat, next: nat)
    requires m.Member? && At(s, i, RenderMembers(m))
    ensures At(s, i, m.before)
    ensures key == i + |m.before| && At(s, key, Quoted(m.key)) && At(s, key + |Quoted(m.key)|, m.after)
    ensures colon == key + |Quoted(m.key)| + |m.after| && At(s, colon, [COLON]) && At(s, colon + 1, m.gap)
    ensures value == colon + 1 + |m.gap| && At(s, value, Render(m.value))
    ensures tail == value + |Render(m.value)| && At(s, tail, m.tail)
    ensures next == tail + |m.tail|
    ensures if m.rest.NoMembers? then next == i + |RenderMembers(m)|
            else At(s, next, [COMMA]) && At(s, next + 1, RenderMembers(m.rest))
                 && next + 1 + |RenderMembers(m.rest)| == i + |RenderMembers(m)|
  {
    hide At, Render, Quoted;
    var more := if m.rest.NoMembers? then [] else [COMMA] + RenderMembers(m.rest);
    assert RenderMembers(m) == m.before + Quoted(m.key) + m.after + [COLON] + m.gap + Render(m.value) + m.tail + more;
    key := i + |m.before|;
    colon := key + |Quoted(m.key)| + |m.after|;
    value := colon + 1 + |m.gap|;
    tail := value + |Render(m.value)|;
    next := tail + |m.tail|;
    SevenParts(s, i, m.before, Quoted(m.key), m.after, [COLON], m.gap, Render(m.value), m.tail, more);
    if m.rest.Member? {
      AtBoth(s, next, [COMMA], RenderMembers(m.rest));
    }
  }

  lemma SevenParts(s: bytes, i: nat, a: bytes, b: bytes, c: bytes, d: bytes, e: bytes, f: bytes, g: bytes, more: bytes)
    requires At(s, i, a + b + c + d + e + f + g + more)
    ensures At(s, i, a) && At(s, i + |a|, b) && At(s, i + |a| + |b|, c) && At(s, i + |a| + |b| + |c|, d)
    ensures var n := i + |a| + |b| + |c| + |d|;
            && At(s, n, e) && At(s, n + |e|, f) && At(s, n + |e| + |f|, g) && At(s, n + |e| + |f| + |g|, more)
            && n + |e| + |f| + |g| + |more| == i + |a + b + c + d + e + f + g + more|
  {
    hide At;
    AtBoth(s, i, a + b + c + d + e + f + g, more);
    AtBoth(s, i, a + b + c + d + e + f, g);
    AtBoth(s, i, a + b + c + d + e, f);
    AtBoth(s, i, a + b + c + d, e);
    AtBoth(s, i, a + b + c, d);
    AtBoth(s, i, a + b, c);
    AtBoth(s, i, a, b);
  }

  lemma ItemParts(s: bytes, i: nat, m: Items) returns (value: nat, tail: nat, next: nat)
    requires m.Item? && At(s, i, RenderItems(m))
    ensures At(s, i, m.before)
    ensures value == i + |m.before| && At(s, value, Render(m.value))
    ensures tail == value + |Render(m.value)| && At(s, tail, m.tail)
    ensures next == tail + |m.tail|
    ensures if m.rest.NoItems? then next == i + |RenderItems(m)|
            else At(s, next, [COMMA]) && At(s, next + 1, RenderItems(m.rest))
                 && next + 1 + |RenderItems(m.rest)| == i + |RenderItems(m)|
  {
    hide At, Render;
    var t1 := m.before + Render(m.value);
    var t2 := t1 + m.tail;
    var more := if m.rest.NoItems? then [] else [COMMA] + RenderItems(m.rest);
    assert RenderItems(m) == t2 + more;
    AtBoth(s, i, t2, more);
    AtBoth(s, i, t1, m.tail);
    AtBoth(s, i, m.before, Render(m.value));
    value := i + |m.before|;
    tail := value + |Render(m.value)|;
    next := tail + |m.tail|;
    if m.rest.Item? {
      AtBoth(s, next, [COMMA], RenderItems(m.rest));
    }
  }

  /** Where the inside of a nested value stands. */
  lemma NestedParts(s: bytes, i: nat, open: byte, pad: bytes, inner: bytes, close: byte)
    requires At(s, i, [open] + pad + inner + [close])
    ensures i < |s| && s[i] == open && At(s, i + 1, pad) && At(s, i + 1 + |pad|, inner)
    ensures At(s, i + 1 + |pad| + |inner|, [close])
  {
    hide At;
    AtBoth(s, i, [open] + pad + inner, [close]);
    AtBoth(s, i, [open] + pad, inner);
    AtBoth(s, i, [open], pad);
    AtByte(s, i, open);
  }

  lemma TokenIsQuiet(t: Tree)
    requires t.Num? || t.Truth? || t.Nil?
    requires WellFormed(t)
    ensures forall k :: 0 <= k < |Render(t)| ==> Quiet(Render(t)[k])
  {
  }

  lemma SpacesAreQuiet(pad: bytes)
    requires Spaces(pad)
    ensures forall k :: 0 <= k < |pad| ==> Quiet(pad[k])
  {
  }

  lemma OneByte(s: bytes, i: nat, b: byte, depth: nat, open: byte, close: byte)
    requires At(s, i, [b]) && depth > 0 && Kind(open, close) && b != QUOTE
    ensures AfterNested(s, i, depth, open, close)
         == if b == close then if depth == 1 then Got((), i + 1) else AfterNested(s, i + 1, depth - 1, open, close)
            else AfterNested(s, i + 1, if b == open then depth + 1 else depth, open, close)
  {
  }

  /** A nested value's content is skipped at any depth, by a scan for either kind. */
  lemma {:induction false} TreeIsSkipped(s: bytes, i: nat, t: Tree, depth: nat, open: byte, close: byte)
    requires At(s, i, Render(t)) && WellFormed(t) && depth > 0 && Kind(open, close)
    ensures Skipped(s, i, Render(t), depth, open, close)
    decreases t
  {
    hide At, AfterNested, Utf8, StringBody, Spaces, RenderMembers, RenderItems, WellFormedMembers, WellFormedItems;
    match t
    case Text(raw) => StringIsSkipped(s, i, raw, depth, open, close);
    case Object(pad, members) =>
      var inner := if open == OPEN_BRACE then depth + 1 else depth;
      NestedParts(s, i, OPEN_BRACE, pad, RenderMembers(members), CLOSE_BRACE);
      AtFirst(s, i, Render(t));
      AtOne(s, i, OPEN_BRACE);
      OneByte(s, i, OPEN_BRACE, depth, open, close);
      SpacesAreQuiet(pad);
      QuietIsSkipped(s, i + 1, pad, inner, open, close);
      MembersAreSkipped(s, i + 1 + |pad|, members, inner, open, close);
      OneByte(s, i + 1 + |pad| + |RenderMembers(members)|, CLOSE_BRACE, inner, open, close);
    case Array(pad, items) =>
      var inner := if open == OPEN_BRACKET then depth + 1 else depth;
      NestedParts(s, i, OPEN_BRACKET, pad, RenderItems(items), CLOSE_BRACKET);
      AtOne(s, i, OPEN_BRACKET);
      OneByte(s, i, OPEN_BRACKET, depth, open, close);
      SpacesAreQuiet(pad);
      QuietIsSkipped(s, i + 1, pad, inner, open, close);
      ItemsAreSkipped(s, i + 1 + |pad|, items, inner, open, close);
      OneByte(s, i + 1 + |pad| + |RenderItems(items)|, CLOSE_BRACKET, inner, open, close);
    case _ =>
      TokenIsQuiet(t);
      QuietIsSkipped(s, i, Render(t), depth, open, close);
  }

  lemma AtOne(s: bytes, i: nat, b: byte)
    requires i < |s| && s[i] == b
    ensures At(s, i, [b])
  {
  }

  lemma {:induction false} MembersAreSkipped(s: bytes, i: nat, m: Members, depth: nat, open: byte, close: byte)
    requires At(s, i, RenderMembers(m)) && WellFormedMembers(m) && depth > 0 && Kind(open, close)
    ensures Skipped(s, i, RenderMembers(m), depth, open, close)
    decreases m
  {
    hide At, AfterNested, Utf8, StringBody, Spaces, Render, Quoted, WellFormed;
    if m.Member? {
      var key, colon, value, tail, next := MemberParts(s, i, m);
      SpacesAreQuiet(m.before);
      SpacesAreQuiet(m.after);
      SpacesAreQuiet(m.gap);
      SpacesAreQuiet(m.tail);
      QuietIsSkipped(s, i, m.before, depth, open, close);
      StringIsSkipped(s, key, m.key, depth, open, close);
      QuietIsSkipped(s, key + |Quoted(m.key)|, m.after, depth, open, close);
      OneByte(s, colon, COLON, depth, open, close);
      QuietIsSkipped(s, colon + 1, m.gap, depth, open, close);
      TreeIsSkipped(s, value, m.value, depth, open, close);
      QuietIsSkipped(s, tail, m.tail, depth, open, close);
      if m.rest.Member? {
        OneByte(s, next, COMMA, depth, open, close);
        MembersAreSkipped(s, next + 1, m.rest, depth, open, close);
      }
    }
  }

  lemma {:induction false} ItemsAreSkipped(s: bytes, i: nat, m: Items, depth: nat, open: byte, close: byte)
    requires At(s, i, RenderItems(m)) && WellFormedItems(m) && depth > 0 && Kind(open, close)
    ensures Skipped(s, i, RenderItems(m), depth, open, close)
    decreases m
  {
    hide At, AfterNested, Spaces, Render, WellFormed;
    if m.Item? {
      var value, tail, next := ItemParts(s, i, m);
      SpacesAreQuiet(m.before);
      SpacesAreQuiet(m.tail);
      QuietIsSkipped(s, i, m.before, depth, open, close);
      TreeIsSkipped(s, value, m.value, depth, open, close);
      QuietIsSkipped(s, tail, m.tail, depth, open, close);
      if m.rest.Item? {
        OneByte(s, next, COMMA, depth, open, close);
        ItemsAreSkipped(s, next + 1, m.rest, depth, open, close);
      }
    }
  }

  // ---------------------------------------------------------------- values

  /** What a caller gets for a value. */
  function Meaning(t: Tree): Value {
    match t
    case Text(raw) => Str(raw)
    case Num(digits) => Number(digits)
    case Truth(b) => Bool(b)
    case Nil => Null
    case _ => Raw(Render(t))
  }

  /** Nothing that could be taken for part of a number follows. */
  ghost predicate Delimited(s: bytes, i: nat) {
    i < |s| ==> !IsNumberByte(s[i])
  }

  lemma NestedIsRead(s: bytes, i: nat, t: Tree)
    requires At(s, i, Render(t)) && WellFormed(t) && (t.Object? || t.Array?)
    ensures ReadValue(s, i) == Got(Raw(Render(t)), i + |Render(t)|)
  {
    hide At, Render, WellFormed, ReadValue;
    if t.Object? {
      ObjectIsRead(s, i, t);
    } else {
      ArrayIsRead(s, i, t);
    }
  }

  lemma ObjectIsRead(s: bytes, i: nat, t: Tree)
    requires At(s, i, Render(t)) && WellFormed(t) && t.Object?
    ensures ReadValue(s, i) == Got(Raw(Render(t)), i + |Render(t)|)
  {
    hide AfterNested, Spaces, RenderMembers, WellFormedMembers, ReadString;
    var inner := RenderMembers(t.members);
    NestedParts(s, i, OPEN_BRACE, t.pad, inner, CLOSE_BRACE);
    SpacesAreQuiet(t.pad);
    QuietIsSkipped(s, i + 1, t.pad, 1, OPEN_BRACE, CLOSE_BRACE);
    MembersAreSkipped(s, i + 1 + |t.pad|, t.members, 1, OPEN_BRACE, CLOSE_BRACE);
    OneByte(s, i + 1 + |t.pad| + |inner|, CLOSE_BRACE, 1, OPEN_BRACE, CLOSE_BRACE);
  }

  lemma ArrayIsRead(s: bytes, i: nat, t: Tree)
    requires At(s, i, Render(t)) && WellFormed(t) && t.Array?
    ensures ReadValue(s, i) == Got(Raw(Render(t)), i + |Render(t)|)
  {
    hide AfterNested, Spaces, RenderItems, WellFormedItems, ReadString;
    var inner := RenderItems(t.items);
    NestedParts(s, i, OPEN_BRACKET, t.pad, inner, CLOSE_BRACKET);
    SpacesAreQuiet(t.pad);
    QuietIsSkipped(s, i + 1, t.pad, 1, OPEN_BRACKET, CLOSE_BRACKET);
    ItemsAreSkipped(s, i + 1 + |t.pad|, t.items, 1, OPEN_BRACKET, CLOSE_BRACKET);
    OneByte(s, i + 1 + |t.pad| + |inner|, CLOSE_BRACKET, 1, OPEN_BRACKET, CLOSE_BRACKET);
  }

  /** Any well-formed value is read whole and nothing after it is touched. */
  lemma ValueIsRead(s: bytes, i: nat, t: Tree)
    requires At(s, i, Render(t)) && WellFormed(t) && Delimited(s, i + |Render(t)|)
    ensures ReadValue(s, i) == Got(Meaning(t), i + |Render(t)|)
  {
    if t.Object? || t.Array? {
      NestedIsRead(s, i, t);
    } else {
      TokenIsRead(s, i, t);
    }
  }

  lemma TokenIsRead(s: bytes, i: nat, t: Tree)
    requires At(s, i, Render(t)) && WellFormed(t) && Delimited(s, i + |Render(t)|) && !t.Object? && !t.Array?
    ensures ReadValue(s, i) == Got(Meaning(t), i + |Render(t)|)
  {
    hide ReadString, ReadNested, AfterNumber, Utf8, StringBody, Quoted;
    FirstByte(t);
    AtFirst(s, i, Render(t));
    match t {
      case Text(raw) => StringIsRead(s, i, raw);
      case Num(digits) => NumberIsTaken(s, i, digits);
      case _ =>
    }
  }

  // ---------------------------------------------------------------- fields and elements

  /** The byte a list's separator or closing bracket stands at. */
  lemma TailDelimits(s: bytes, i: nat, tail: bytes, b: byte)
    requires At(s, i, tail) && Spaces(tail) && At(s, i + |tail|, [b]) && !IsNumberByte(b)
    ensures Delimited(s, i)
  {
  }

  lemma SpacesThenTree(s: bytes, i: nat, pad: bytes, t: Tree)
    requires At(s, i, pad) && Spaces(pad) && At(s, i + |pad|, Render(t)) && WellFormed(t)
    ensures AfterSpaces(s, i) == i + |pad| < |s|
    ensures s[i + |pad|] != CLOSE_BRACKET && s[i + |pad|] != CLOSE_BRACE && s[i + |pad|] != COMMA
  {
    hide AfterSpaces, WellFormed, Render;
    FirstByte(t);
    AtFirst(s, i + |pad|, Render(t));
    AtOne(s, i + |pad|, Render(t)[0]);
    SpacesThen(s, i, pad, Render(t)[0]);
  }

  lemma SpacesThenQuoted(s: bytes, i: nat, pad: bytes, raw: bytes)
    requires At(s, i, pad) && Spaces(pad) && At(s, i + |pad|, Quoted(raw))
    ensures AfterSpaces(s, i) == i + |pad| < |s| && s[i + |pad|] == QUOTE
  {
    hide AfterSpaces;
    AtFirst(s, i + |pad|, Quoted(raw));
    AtOne(s, i + |pad|, QUOTE);
    SpacesThen(s, i, pad, QUOTE);
  }

  function Lookup(m: Members, want: bytes): Option<Value> {
    match m
    case NoMembers => None
    case Member(_, key, _, _, value, _, rest) => if key == want then Some(Meaning(value)) else Lookup(rest, want)
  }

  lemma MemberIsRead(s: bytes, i: nat, m: Members) returns (next: nat)
    requires m.Member? && At(s, i, RenderMembers(m)) && WellFormedMembers(m)
    requires At(s, i + |RenderMembers(m)|, [CLOSE_BRACE])
    ensures var r := ReadEntry(s, i);
            r.Got? && r.value == Entry(m.key, Meaning(m.value)) && AfterSpaces(s, r.next) == next < |s|
    ensures if m.rest.NoMembers? then s[next] == CLOSE_BRACE
            else s[next] == COMMA && At(s, next + 1, RenderMembers(m.rest))
                 && next + 1 + |RenderMembers(m.rest)| == i + |RenderMembers(m)|
  {
    hide At, AfterSpaces, ReadString, ReadValue, Utf8, StringBody, Spaces, Render, Quoted, WellFormed, Meaning, Delimited;
    var key, colon, value, tail, n := MemberParts(s, i, m);
    next := n;
    var sep := if m.rest.NoMembers? then CLOSE_BRACE else COMMA;
    SpacesThenQuoted(s, i, m.before, m.key);
    StringIsRead(s, key, m.key);
    SpacesThen(s, key + |Quoted(m.key)|, m.after, COLON);
    SpacesThenTree(s, colon + 1, m.gap, m.value);
    TailDelimits(s, tail, m.tail, sep);
    ValueIsRead(s, value, m.value);
    SpacesThen(s, tail, m.tail, sep);
  }

  lemma {:induction false} FieldIsFound(s: bytes, i: nat, m: Members, want: bytes)
    requires m.Member? && At(s, i, RenderMembers(m)) && WellFormedMembers(m)
    requires At(s, i + |RenderMembers(m)|, [CLOSE_BRACE])
    ensures FieldFrom(s, i, want) == Ok(Lookup(m, want))
    decreases m
  {
    hide At, ReadEntry, AfterSpaces, RenderMembers, Meaning, Utf8, StringBody, Spaces, WellFormed;
    var next := MemberIsRead(s, i, m);
    if m.key != want && m.rest.Member? {
      FieldIsFound(s, next + 1, m.rest, want);
    }
  }

  lemma FieldFromSkipsSpaces(s: bytes, i: nat, want: bytes)
    requires i <= |s|
    ensures FieldFrom(s, AfterSpaces(s, i), want) == FieldFrom(s, i, want)
  {
    hide ReadString, ReadValue;
    var n := AfterSpaces(s, i);
    assert AfterSpaces(s, n) == n;
  }

  /** `field` on any object in any layout, whatever follows it: the first member whose key
      is written `want`, and nothing from inside nested values. */
  lemma FieldIsExact(lead: bytes, pad: bytes, members: Members, after: bytes, want: bytes)
    requires Spaces(lead) && WellFormed(Object(pad, members))
    ensures FieldOf(lead + Render(Object(pad, members)) + after, want) == Ok(Lookup(members, want))
  {
    hide At, AfterSpaces, FieldFrom, RenderMembers, Utf8, StringBody, Spaces, Quoted, Lookup;
    var text := Render(Object(pad, members));
    var s := lead + text + after;
    AtLead(lead, text, after);
    var i := |lead|;
    NestedParts(s, i, OPEN_BRACE, pad, RenderMembers(members), CLOSE_BRACE);
    AtOne(s, i, OPEN_BRACE);
    SpacesThen(s, 0, lead, OPEN_BRACE);
    var inner := i + 1 + |pad|;
    if members.NoMembers? {
      NoMembersText(want);
      SpacesThen(s, i + 1, pad, CLOSE_BRACE);
    } else {
      var key, colon, value, tail, next := MemberParts(s, inner, members);
      SpacesAreSkipped(s, i + 1, pad);
      SpacesThenQuoted(s, inner, members.before, members.key);
      FieldFromSkipsSpaces(s, inner, want);
      FieldIsFound(s, inner, members, want);
    }
  }

  lemma NoMembersText(want: bytes)
    ensures RenderMembers(NoMembers) == [] && Lookup(NoMembers, want) == None
  {
  }

  lemma NoItemsText()
    ensures RenderItems(NoItems) == []
  {
  }

  lemma AtLead(lead: bytes, text: bytes, after: bytes)
    ensures At(lead + text + after, 0, lead) && At(lead + text + after, |lead|, text)
  {
  }

  function Meanings(m: Items): seq<Value> {
    match m
    case NoItems => []
    case Item(_, value, _, rest) => [Meaning(value)] + Meanings(rest)
  }

  lemma ItemIsRead(s: bytes, i: nat, m: Items) returns (next: nat)
    requires m.Item? && At(s, i, RenderItems(m)) && WellFormedItems(m)
    requires At(s, i + |RenderItems(m)|, [CLOSE_BRACKET])
    ensures var first := AfterSpaces(s, i);
            var r := ReadValue(s, first);
            && first < |s| && s[first] != CLOSE_BRACKET
            && r.Got? && r.value == Meaning(m.value) && AfterSpaces(s, r.next) == next < |s|
    ensures if m.rest.NoItems? then s[next] == CLOSE_BRACKET
            else s[next] == COMMA && At(s, next + 1, RenderItems(m.rest))
                 && next + 1 + |RenderItems(m.rest)| == i + |RenderItems(m)|
  {
    hide At, AfterSpaces, ReadValue, Spaces, Render, WellFormed, Meaning, Delimited;
    var value, tail, n := ItemParts(s, i, m);
    next := n;
    var sep := if m.rest.NoItems? then CLOSE_BRACKET else COMMA;
    SpacesThenTree(s, i, m.before, m.value);
    TailDelimits(s, tail, m.tail, sep);
    ValueIsRead(s, value, m.value);
    SpacesThen(s, tail, m.tail, sep);
  }

  /** Items are yielded in order, from the separator before the first of them on. */
  lemma {:induction false} ItemsAreYielded(s: bytes, i: nat, at: nat, m: Items, started: bool)
    requires m.Item? && At(s, at, RenderItems(m)) && WellFormedItems(m)
    requires At(s, at + |RenderItems(m)|, [CLOSE_BRACKET])
    requires i <= |s|
    requires var sep := AfterSpaces(s, i);
             && sep < |s| && s[sep] == (if started then COMMA else OPEN_BRACKET)
             && at <= |s| && AfterSpaces(s, sep + 1) == AfterSpaces(s, at)
    ensures ElementsFrom(s, i, started) == Meanings(m)
    decreases m
  {
    hide At, AfterSpaces, ReadValue, RenderItems, Meaning, Spaces, WellFormed;
    var next := ItemIsRead(s, at, m);
    var n := ReadValue(s, AfterSpaces(s, at)).next;
    if m.rest.Item? {
      ItemsAreYielded(s, n, next + 1, m.rest, true);
    }
  }

  /** `elements` on any array in any layout, whatever follows it. */
  lemma ElementsAreExact(lead: bytes, pad: bytes, items: Items, after: bytes)
    requires Spaces(lead) && WellFormed(Array(pad, items))
    ensures ElementsFrom(lead + Render(Array(pad, items)) + after, 0, false) == Meanings(items)
  {
    hide At, AfterSpaces, ReadValue, RenderItems, Spaces;
    var text := Render(Array(pad, items));
    var s := lead + text + after;
    AtLead(lead, text, after);
    var i := |lead|;
    NestedParts(s, i, OPEN_BRACKET, pad, RenderItems(items), CLOSE_BRACKET);
    AtOne(s, i, OPEN_BRACKET);
    SpacesThen(s, 0, lead, OPEN_BRACKET);
    if items.NoItems? {
      NoItemsText();
      SpacesThen(s, i + 1, pad, CLOSE_BRACKET);
    } else {
      SpacesAreSkipped(s, i + 1, pad);
      ItemsAreYielded(s, 0, i + 1 + |pad|, items, false);
    }
  }
}
