/** The writer and the extractor undo each other. */
module Json {
  import opened Bytes
  import opened JsonSyntax
  import opened JsonReader
  import opened JsonExact
  import opened JsonWriter

  // ---------------------------------------------------------------- emitting

  /** Members as the writer separates them: a comma before every key but the first. */
  function FieldsText(f: Fields, comma: bool): bytes
    decreases f
  {
    match f
    case NoFields => []
    case Field(key, value, rest) => KeyText(key, comma) + Canonical(value) + FieldsText(rest, true)
  }

  function ListText(l: List, comma: bool): bytes
    decreases l
  {
    match l
    case NoElements => []
    case Element(value, rest) => Comma(comma) + Canonical(value) + ListText(rest, true)
  }

  lemma {:induction false} FieldsTextIsCanonical(f: Fields)
    ensures FieldsText(f, false) == RenderMembers(ConcreteFields(f))
    ensures FieldsText(f, true) == if f.NoFields? then [] else [COMMA] + RenderMembers(ConcreteFields(f))
    decreases f
  {
    hide Escape, Quoted, Render;
    if f.Field? {
      FieldsTextIsCanonical(f.rest);
      var key, value := Quoted(Escape(f.key)), Canonical(f.value);
      var more := FieldsText(f.rest, true);
      assert RenderMembers(ConcreteFields(f)) == [] + key + [] + [COLON] + [] + value + [] + more;
      PlainMember(key, value, more);
    }
  }

  lemma PlainMember(key: bytes, value: bytes, more: bytes)
    ensures [] + key + [] + [COLON] + [] + value + [] + more == [] + key + [COLON] + value + more
    ensures [COMMA] + key + [COLON] + value + more == [COMMA] + ([] + key + [COLON] + value + more)
  {
  }

  lemma {:induction false} ListTextIsCanonical(l: List)
    ensures ListText(l, false) == RenderItems(ConcreteList(l))
    ensures ListText(l, true) == if l.NoElements? then [] else [COMMA] + RenderItems(ConcreteList(l))
    decreases l
  {
    hide Render;
    if l.Element? {
      ListTextIsCanonical(l.rest);
      var value, more := Canonical(l.value), ListText(l.rest, true);
      assert RenderItems(ConcreteList(l)) == [] + value + [] + more;
      PlainItem(value, more);
    }
  }

  lemma PlainItem(value: bytes, more: bytes)
    ensures [] + value + [] + more == [] + value + more
    ensures [COMMA] + value + more == [COMMA] + ([] + value + more)
  {
  }

  lemma NestedText(comma: bytes, open: bytes, inner: bytes, close: bytes)
    ensures comma + open + inner + close == comma + (open + [] + inner + close)
  {
  }

  lemma CanonicalNested(j: Json)
    ensures j.JObject? ==> Canonical(j) == [OPEN_BRACE] + [] + FieldsText(j.fields, false) + [CLOSE_BRACE]
    ensures j.JArray? ==> Canonical(j) == [OPEN_BRACKET] + [] + ListText(j.list, false) + [CLOSE_BRACKET]
  {
    hide RenderMembers, RenderItems, FieldsText, ListText;
    if j.JObject? {
      FieldsTextIsCanonical(j.fields);
    } else if j.JArray? {
      ListTextIsCanonical(j.list);
    }
  }

  /** The calls a caller makes for a document: all of its canonical text is written, with
      every comma in place, exactly when it fits. */
  method Emit(w: Writer, j: Json) returns (r: Written)
    requires w.Valid()
    modifies w, w.buf
    ensures w.Valid() && Wrote(old(w.Text()), w.Text(), Comma(old(w.needsComma)) + Canonical(j), r.Ok?, w.buf.Length)
    ensures r.Ok? ==> w.needsComma
    decreases j
  {
    hide Wrote, Writer.Valid, Writer.Text, RenderMembers, RenderItems, FieldsText, ListText, Escape, Quoted;
    match j
    case JString(text) => r := w.StrValue(text);
    case JNumber(n) => r := w.U64Value(n);
    case JBool(b) => r := w.BoolValue(b);
    case JRaw(tree) => r := w.RawValue(Render(tree));
    case JObject(fields) =>
      ghost var before, comma, inner := w.Text(), Comma(w.needsComma), FieldsText(fields, false);
      CanonicalNested(j);
      NestedText(comma, [OPEN_BRACE], inner, [CLOSE_BRACE]);
      r := w.BeginObject();
      ghost var mid, ok := w.Text(), r.Ok?;
      if r.Ok? {
        r := EmitFields(w, fields);
      }
      WroteThen(before, mid, w.Text(), comma + [OPEN_BRACE], inner, ok, r.Ok?, w.buf.Length);
      mid, ok := w.Text(), r.Ok?;
      if r.Ok? {
        r := w.EndObject();
      }
      WroteThen(before, mid, w.Text(), comma + [OPEN_BRACE] + inner, [CLOSE_BRACE], ok, r.Ok?, w.buf.Length);
    case JArray(list) =>
      ghost var before, comma, inner := w.Text(), Comma(w.needsComma), ListText(list, false);
      CanonicalNested(j);
      NestedText(comma, [OPEN_BRACKET], inner, [CLOSE_BRACKET]);
      r := w.BeginArray();
      ghost var mid, ok := w.Text(), r.Ok?;
      if r.Ok? {
        r := EmitList(w, list);
      }
      WroteThen(before, mid, w.Text(), comma + [OPEN_BRACKET], inner, ok, r.Ok?, w.buf.Length);
      mid, ok := w.Text(), r.Ok?;
      if r.Ok? {
        r := w.EndArray();
      }
      WroteThen(before, mid, w.Text(), comma + [OPEN_BRACKET] + inner, [CLOSE_BRACKET], ok, r.Ok?, w.buf.Length);
  }

  method EmitFields(w: Writer, f: Fields) returns (r: Written)
    requires w.Valid()
    modifies w, w.buf
    ensures w.Valid() && Wrote(old(w.Text()), w.Text(), FieldsText(f, old(w.needsComma)), r.Ok?, w.buf.Length)
    decreases f
  {
    hide Wrote, Writer.Valid, Writer.Text, Canonical, KeyText;
    ghost var before, comma := w.Text(), w.needsComma;
    if f.NoFields? {
      WroteNothing(w);
      return Ok(());
    }
    r := w.Key(f.key);
    ghost var mid, ok := w.Text(), r.Ok?;
    if r.Ok? {
      NoComma(f.value);
      r := Emit(w, f.value);
    }
    WroteThen(before, mid, w.Text(), KeyText(f.key, comma), Canonical(f.value), ok, r.Ok?, w.buf.Length);
    mid, ok := w.Text(), r.Ok?;
    if r.Ok? {
      r := EmitFields(w, f.rest);
    }
    WroteThen(before, mid, w.Text(), KeyText(f.key, comma) + Canonical(f.value), FieldsText(f.rest, true),
              ok, r.Ok?, w.buf.Length);
  }

  method EmitList(w: Writer, l: List) returns (r: Written)
    requires w.Valid()
    modifies w, w.buf
    ensures w.Valid() && Wrote(old(w.Text()), w.Text(), ListText(l, old(w.needsComma)), r.Ok?, w.buf.Length)
    decreases l
  {
    hide Wrote, Writer.Valid, Writer.Text, Canonical;
    ghost var before, comma := w.Text(), w.needsComma;
    if l.NoElements? {
      WroteNothing(w);
      return Ok(());
    }
    r := Emit(w, l.value);
    ghost var mid, ok := w.Text(), r.Ok?;
    if r.Ok? {
      r := EmitList(w, l.rest);
    }
    WroteThen(before, mid, w.Text(), Comma(comma) + Canonical(l.value), ListText(l.rest, true), ok, r.Ok?, w.buf.Length);
  }

  lemma WroteNothing(w: Writer)
    requires w.Valid()
    ensures Wrote(w.Text(), w.Text(), [], true, w.buf.Length)
  {
  }

  lemma NoComma(j: Json)
    ensures Comma(false) + Canonical(j) == Canonical(j)
  {
  }

  // ---------------------------------------------------------------- reading back

  /** What a caller of `field` means: the first member whose key is `want`. */
  function Intended(f: Fields, want: bytes): Option<Value>
    decreases f
  {
    match f
    case NoFields => None
    case Field(key, value, rest) => if key == want then Some(Meaning(Concrete(value))) else Intended(rest, want)
  }

  /** Keys that are written as they are. */
  predicate Plain(s: bytes) {
    forall i :: 0 <= i < |s| ==> s[i] >= 0x20 && s[i] != QUOTE && s[i] != BACKSLASH
  }

  lemma {:induction false} PlainIsUnchanged(s: bytes)
    ensures Escape(s) == s <==> Plain(s)
    ensures |Escape(s)| >= |s|
  {
    hide EscapeByte;
    if s != [] {
      PlainIsUnchanged(s[1..]);
      var t := EscapeByte(s[0]);
      if Plain(s) {
        assert Plain(s[1..]) && s == [s[0]] + s[1..];
      }
      if Escape(s) == s {
        assert |t| == 1 && Escape(s)[..1] == t && Escape(s)[1..] == Escape(s[1..]);
        forall i | 0 < i < |s| ensures s[i] == s[1..][i - 1] {
        }
      }
    }
  }

  lemma {:induction false} EscapedLookup(f: Fields, want: bytes)
    ensures Lookup(ConcreteFields(f), Escape(want)) == Intended(f, want)
    decreases f
  {
    if f.Field? {
      if Escape(f.key) == Escape(want) {
        EscapeInjective(f.key, want);
      }
      EscapedLookup(f.rest, want);
    }
  }

  /** Looked up under its escaped spelling, every member of an emitted object is found,
      its nested values whole, and nothing else is. */
  lemma EmittedFieldIsFound(f: Fields, want: bytes, lead: bytes, after: bytes)
    requires LegalFields(f) && Spaces(lead)
    ensures FieldOf(lead + Canonical(JObject(f)) + after, Escape(want)) == Ok(Intended(f, want))
  {
    hide FieldOf, Escape;
    ConcreteIsWellFormed(JObject(f));
    FieldIsExact(lead, [], ConcreteFields(f), after, Escape(want));
    EscapedLookup(f, want);
  }

  /** `field` compares the escaped spelling with the bare key it is given, so it keeps its
      promise for a key exactly when that key needs no escaping. */
  lemma FieldMeetsIntent(want: bytes)
    requires Utf8(want)
    ensures Plain(want) <==>
            forall f: Fields | LegalFields(f) :: FieldOf(Canonical(JObject(f)), want) == Ok(Intended(f, want))
  {
    hide FieldOf, Canonical, Escape, Plain;
    PlainIsUnchanged(want);
    if Plain(want) {
      forall f: Fields | LegalFields(f) ensures FieldOf(Canonical(JObject(f)), want) == Ok(Intended(f, want)) {
        EmittedFieldIsFound(f, want, [], []);
        assert [] + Canonical(JObject(f)) + [] == Canonical(JObject(f));
      }
    } else {
      EscapedKeyIsMissed(want);
      var f := Field(want, JBool(true), NoFields);
      assert LegalFields(f) && FieldOf(Canonical(JObject(f)), want) != Ok(Intended(f, want));
    }
  }

  /** The failing case: an object with just that key, which `field` does not find. */
  lemma EscapedKeyIsMissed(want: bytes)
    requires Utf8(want) && Escape(want) != want
    ensures var f := Field(want, JBool(true), NoFields);
            && LegalFields(f) && Intended(f, want) == Some(Bool(true))
            && FieldOf(Canonical(JObject(f)), want) == Ok(None)
  {
    hide FieldOf, Escape, Utf8;
    var f := Field(want, JBool(true), NoFields);
    assert LegalFields(f.rest) && ConcreteFields(f.rest) == NoMembers;
    ConcreteIsWellFormed(JObject(f));
    var members := ConcreteFields(f);
    FieldIsExact([], [], members, [], want);
    assert [] + Render(Object([], members)) + [] == Canonical(JObject(f));
  }

  /** A concrete one: the key `a"b`. */
  lemma QuotedKeyIsMissed()
    ensures var key: bytes := [97, QUOTE, 98];
            var f := Field(key, JBool(true), NoFields);
            FieldOf(Canonical(JObject(f)), key) == Ok(None) && Intended(f, key) == Some(Bool(true))
  {
    hide FieldOf, Escape, Utf8;
    var key: bytes := [97, QUOTE, 98];
    AsciiIsUtf8(key);
    assert key[1] == QUOTE;
    PlainIsUnchanged(key);
    EscapedKeyIsMissed(key);
  }

  function ElementValues(l: List): seq<Value>
    decreases l
  {
    match l
    case NoElements => []
    case Element(value, rest) => [Meaning(Concrete(value))] + ElementValues(rest)
  }

  lemma {:induction false} ListMeanings(l: List)
    ensures Meanings(ConcreteList(l)) == ElementValues(l)
    decreases l
  {
    if l.Element? {
      ListMeanings(l.rest);
    }
  }

  /** `elements` yields an emitted array's members in order. */
  lemma EmittedElementsAreYielded(l: List, lead: bytes, after: bytes)
    requires LegalList(l) && Spaces(lead)
    ensures ElementsFrom(lead + Canonical(JArray(l)) + after, 0, false) == ElementValues(l)
  {
    hide ElementsFrom;
    ConcreteIsWellFormed(JArray(l));
    ElementsAreExact(lead, [], ConcreteList(l), after);
    ListMeanings(l);
  }

  // ---------------------------------------------------------------- paths

  /** A caller's descent: `field` on the document, then on what it returned, and so on. */
  function ReadPath(text: bytes, path: seq<bytes>): Option<Value>
    decreases |path|
  {
    if path == [] then Some(Raw(text))
    else
      match FieldOf(text, path[0])
      case Ok(Some(Raw(inner))) => ReadPath(inner, path[1..])
      case Ok(Some(value)) => if |path| == 1 then Some(value) else None
      case _ => None
  }

  /** The same descent in the document itself. */
  function Descend(t: Tree, path: seq<bytes>): Option<Tree>
    decreases |path|
  {
    if path == [] then Some(t)
    else if !t.Object? then None
    else
      match Named(t.members, path[0])
      case None => None
      case Some(value) => Descend(value, path[1..])
  }

  function Named(m: Members, want: bytes): Option<Tree>
    decreases m
  {
    match m
    case NoMembers => None
    case Member(_, key, _, _, value, _, rest) => if key == want then Some(value) else Named(rest, want)
  }

  lemma {:induction false} NamedIsLookedUp(m: Members, want: bytes)
    requires WellFormedMembers(m)
    ensures match Named(m, want)
            case None => Lookup(m, want) == None
            case Some(t) => Lookup(m, want) == Some(Meaning(t)) && WellFormed(t)
    decreases m
  {
    if m.Member? {
      NamedIsLookedUp(m.rest, want);
    }
  }

  lemma ArrayIsNoObject(pad: bytes, items: Items, want: bytes)
    ensures FieldOf(Render(Array(pad, items)), want) == Err(Malformed)
  {
  }

  /** Descending by keys through any well-formed object finds what stands at that path, at
      any depth and in any layout. */
  lemma {:induction false} PathIsRead(lead: bytes, t: Tree, after: bytes, path: seq<bytes>)
    requires t.Object? && WellFormed(t) && Spaces(lead) && path != []
    ensures ReadPath(lead + Render(t) + after, path)
         == match Descend(t, path)
            case None => None
            case Some(found) => Some(Meaning(found))
    decreases |path|
  {
    hide FieldOf, Utf8, StringBody;
    FieldIsExact(lead, t.pad, t.members, after, path[0]);
    NamedIsLookedUp(t.members, path[0]);
    var found := Named(t.members, path[0]);
    if found.Some? && |path| > 1 {
      assert [] + Render(found.value) + [] == Render(found.value);
      match found.value
      case Object(_, _) => PathIsRead([], found.value, [], path[1..]);
      case Array(pad, items) => ArrayIsNoObject(pad, items, path[1]);
      case _ =>
    }
  }
}
