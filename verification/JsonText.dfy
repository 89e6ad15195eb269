/** What the writer emits, byte for byte. */
module JsonText {
  import opened Bytes
  import opened JsonSyntax
  import opened JsonWriter
  import opened Documents = Json

  /** One document spelled out, with every kind of value in it and every kind of escape. */
  lemma DocumentIsSpelledOut()
    ensures Canonical(JObject(
              Field(Ascii("a"), JArray(Element(JNumber(107), Element(JBool(true), Element(
                                  JObject(Field(Ascii("k"), JBool(false), NoFields)), NoElements)))),
              Field(Ascii("b"), JString([34, 92, 10, 13, 9, 1, 31, 47, 195, 169]), NoFields))))
         == Ascii("{\"a\":") + Ascii("[107,true,{\"k\":false}]") + Ascii(",\"b\":")
            + (Ascii("\"\\\"\\\\\\n\\r\\t\\u0001\\u001f/") + [195, 169, 34]) + Ascii("}")
  {
    hide Canonical;
    var inner := JObject(Field(Ascii("k"), JBool(false), NoFields));
    var list := JArray(Element(JNumber(107), Element(JBool(true), Element(inner, NoElements))));
    var text := JString([34, 92, 10, 13, 9, 1, 31, 47, 195, 169]);
    ListIsSpelledOut();
    TextIsSpelledOut();
    TwoFields(97, list, 98, text);
    assert Ascii("a") == [97] && Ascii("b") == [98];
    assert Ascii("{\"a\":") == [123, 34, 97, 34, 58] && Ascii(",\"b\":") == [44, 34, 98, 34, 58] && Ascii("}") == [125];
  }

  lemma OneLetter(b: byte)
    requires 97 <= b <= 122
    ensures Quoted(Escape([b])) + [COLON] == [34, b, 34, 58]
  {
    assert [b][1..] == [];
    assert Escape([b]) == EscapeByte(b) + Escape([]) == [b];
  }

  lemma OneField(key: byte, value: Json)
    requires 97 <= key <= 122
    ensures Canonical(JObject(Field([key], value, NoFields))) == [123, 34, key, 34, 58] + Canonical(value) + [125]
  {
    hide Canonical, Quoted, Escape;
    LetterKey(key, false);
    CanonicalNested(JObject(Field([key], value, NoFields)));
    assert FieldsText(NoFields, true) == [];
  }

  lemma LetterKey(key: byte, comma: bool)
    requires 97 <= key <= 122
    ensures KeyText([key], comma) == if comma then [44, 34, key, 34, 58] else [34, key, 34, 58]
  {
    hide Quoted, Escape;
    OneLetter(key);
    var text := Quoted(Escape([key]));
    assert Comma(comma) + text + [COLON] == Comma(comma) + (text + [COLON]);
  }

  lemma TwoFieldsText(key: bytes, value: Json, key': bytes, value': Json)
    ensures FieldsText(Field(key, value, Field(key', value', NoFields)), false)
         == KeyText(key, false) + Canonical(value) + (KeyText(key', true) + Canonical(value'))
  {
    hide KeyText, Canonical;
    assert FieldsText(NoFields, true) == [];
    assert FieldsText(Field(key', value', NoFields), true) == KeyText(key', true) + Canonical(value') + [];
  }

  lemma TwoFields(key: byte, value: Json, key': byte, value': Json)
    requires 97 <= key <= 122 && 97 <= key' <= 122
    ensures Canonical(JObject(Field([key], value, Field([key'], value', NoFields))))
         == [123, 34, key, 34, 58] + Canonical(value) + [44, 34, key', 34, 58] + Canonical(value') + [125]
  {
    hide Canonical, Quoted, Escape, FieldsText;
    CanonicalNested(JObject(Field([key], value, Field([key'], value', NoFields))));
    LetterKey(key, false);
    LetterKey(key', true);
    TwoFieldsText([key], value, [key'], value');
  }

  lemma ListIsSpelledOut()
    ensures Canonical(JArray(Element(JNumber(107), Element(JBool(true), Element(
                        JObject(Field(Ascii("k"), JBool(false), NoFields)), NoElements)))))
         == Ascii("[107,true,{\"k\":false}]")
  {
    hide Canonical;
    var inner := JObject(Field(Ascii("k"), JBool(false), NoFields));
    OneField(107, JBool(false));
    assert Ascii("k") == [107];
    ScalarsAreSpelledOut();
    ThreeElements(JNumber(107), JBool(true), inner);
    ListLiteral();
    assert [123, 34, 107, 34, 58] + [102, 97, 108, 115, 101] + [125]
        == [123, 34, 107, 34, 58, 102, 97, 108, 115, 101, 125];
    ListPieces();
  }

  lemma ListLiteral()
    ensures Ascii("[107,true,{\"k\":false}]")
         == [91, 49, 48, 55, 44, 116, 114, 117, 101, 44,
             123, 34, 107, 34, 58, 102, 97, 108, 115, 101, 125, 93]
  {
  }

  lemma ListPieces()
    ensures [91] + [49, 48, 55] + [44] + [116, 114, 117, 101] + [44]
            + [123, 34, 107, 34, 58, 102, 97, 108, 115, 101, 125] + [93]
         == [91, 49, 48, 55, 44, 116, 114, 117, 101, 44,
             123, 34, 107, 34, 58, 102, 97, 108, 115, 101, 125, 93]
  {
  }

  lemma ScalarsAreSpelledOut()
    ensures Canonical(JNumber(107)) == [49, 48, 55]
    ensures Canonical(JBool(true)) == [116, 114, 117, 101] && Canonical(JBool(false)) == [102, 97, 108, 115, 101]
  {
    assert Decimal(107) == Decimal(10) + [55] && Decimal(10) == Decimal(1) + [48] && Decimal(1) == [49];
    assert Ascii("true") == [116, 114, 117, 101] && Ascii("false") == [102, 97, 108, 115, 101];
  }

  lemma ThreeElements(a: Json, b: Json, c: Json)
    ensures Canonical(JArray(Element(a, Element(b, Element(c, NoElements)))))
         == [91] + Canonical(a) + [44] + Canonical(b) + [44] + Canonical(c) + [93]
  {
    hide Canonical;
    CanonicalNested(JArray(Element(a, Element(b, Element(c, NoElements)))));
    assert ListText(NoElements, true) == [];
    assert ListText(Element(c, NoElements), true) == [44] + Canonical(c) + [];
    assert ListText(Element(b, Element(c, NoElements)), true) == [44] + Canonical(b) + ([44] + Canonical(c));
  }

  lemma TextIsSpelledOut()
    ensures Canonical(JString([34, 92, 10, 13, 9, 1, 31, 47, 195, 169]))
         == Ascii("\"\\\"\\\\\\n\\r\\t\\u0001\\u001f/") + [195, 169, 34]
  {
    hide Escape;
    var short, long, plain := [34, 92, 10, 13, 9], [1, 31], [47, 195, 169];
    ShortEscapes();
    LongEscapes();
    assert [34, 92, 10, 13, 9, 1, 31, 47, 195, 169] == short + (long + plain);
    EscapeConcat(short, long + plain);
    EscapeConcat(long, plain);
    assert Ascii("\"\\\"\\\\\\n\\r\\t\\u0001\\u001f/")
        == [34] + [92, 34, 92, 92, 92, 110, 92, 114, 92, 116]
           + [92, 117, 48, 48, 48, 49, 92, 117, 48, 48, 49, 102] + [47];
  }

  lemma ShortEscapes()
    ensures Escape([34, 92, 10, 13, 9]) == [92, 34, 92, 92, 92, 110, 92, 114, 92, 116]
  {
    EscapeStep(34, [92, 10, 13, 9]);
    EscapeStep(92, [10, 13, 9]);
    EscapeStep(10, [13, 9]);
    EscapeStep(13, [9]);
    EscapeStep(9, []);
  }

  lemma LongEscapes()
    ensures Escape([1, 31]) == [92, 117, 48, 48, 48, 49, 92, 117, 48, 48, 49, 102]
    ensures Escape([47, 195, 169]) == [47, 195, 169]
  {
    EscapeStep(1, [31]);
    EscapeStep(31, []);
    EscapeStep(47, [195, 169]);
    EscapeStep(195, [169]);
    EscapeStep(169, []);
  }

  lemma EscapeStep(b: byte, rest: bytes)
    ensures Escape([b] + rest) == EscapeByte(b) + Escape(rest)
  {
    assert ([b] + rest)[1..] == rest;
  }
}
