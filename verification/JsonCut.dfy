/** What the extractor makes of a text that breaks off. */
module JsonCut {
  import opened Bytes
  import opened JsonSyntax
  import opened JsonReader
  import opened JsonExact

  // ---------------------------------------------------------------- what more bytes cannot change

  lemma {:induction false} SpacesStay(s: bytes, more: bytes, i: nat)
    requires i <= |s| && AfterSpaces(s, i) < |s|
    ensures AfterSpaces(s + more, i) == AfterSpaces(s, i)
    decreases |s| - i
  {
    if IsSpace(s[i]) {
      SpacesStay(s, more, i + 1);
    }
  }

  /** The text goes on with a byte that a number at its end takes in. */
  predicate GoesOn(more: bytes) {
    more != [] && IsNumberByte(more[0])
  }

  lemma {:induction false} NumberStays(s: bytes, more: bytes, i: nat)
    requires i <= |s|
    ensures if AfterNumber(s, i) == |s| && GoesOn(more) then AfterNumber(s + more, i) > |s|
            else AfterNumber(s + more, i) == AfterNumber(s, i)
    decreases |s| - i
  {
    var whole := s + more;
    if i == |s| {
      assert more != [] ==> whole[i] == more[0];
    } else if IsNumberByte(s[i]) {
      NumberStays(s, more, i + 1);
    }
  }

  lemma {:induction false} QuoteStays(s: bytes, more: bytes, i: nat)
    requires AfterQuote(s, i).Some?
    ensures AfterQuote(s + more, i) == AfterQuote(s, i)
    decreases |s| - i
  {
    if s[i] != QUOTE {
      QuoteStays(s, more, if s[i] == BACKSLASH then i + 2 else i + 1);
    }
  }

  lemma StringStays(s: bytes, more: bytes, i: nat)
    requires i < |s| && ReadString(s, i) != Fail(Truncated)
    ensures ReadString(s + more, i) == ReadString(s, i)
  {
    hide Utf8, AfterQuote;
    if s[i] == QUOTE && AfterQuote(s, i + 1).Some? {
      QuoteStays(s, more, i + 1);
      var n := AfterQuote(s, i + 1).value;
      assert (s + more)[i + 1..n - 1] == s[i + 1..n - 1];
    }
  }

  lemma {:induction false} NestedStays(s: bytes, more: bytes, i: nat, depth: nat, open: byte, close: byte)
    requires depth > 0 && AfterNested(s, i, depth, open, close) != Fail(Truncated)
    ensures AfterNested(s + more, i, depth, open, close) == AfterNested(s, i, depth, open, close)
    decreases |s| - i
  {
    hide ReadString;
    if s[i] == QUOTE {
      StringStays(s, more, i);
      if ReadString(s, i).Got? {
        NestedStays(s, more, ReadString(s, i).next, depth, open, close);
      }
    } else if s[i] == open {
      NestedStays(s, more, i + 1, depth + 1, open, close);
    } else if s[i] != close {
      NestedStays(s, more, i + 1, depth, open, close);
    } else if depth > 1 {
      NestedStays(s, more, i + 1, depth - 1, open, close);
    }
  }

  /** `now` is a longer number than `was`. */
  predicate Longer(was: Value, now: Value) {
    was.Number? && now.Number? && |now.text| > |was.text|
  }

  /** A value once read is read the same whatever follows, unless it is a number at the end
      of the text and goes on. */
  lemma ValueStays(s: bytes, more: bytes, i: nat)
    requires ReadValue(s, i).Got?
    ensures var was, now := ReadValue(s, i), ReadValue(s + more, i);
            if was.value.Number? && was.next == |s| && GoesOn(more) then now.Got? && Longer(was.value, now.value)
            else now == was
  {
    hide ReadValue;
    NoValueAtEnd(s, i);
    if s[i] == QUOTE || s[i] == OPEN_BRACE || s[i] == OPEN_BRACKET {
      BracketedStays(s, more, i);
    } else {
      TokenStays(s, more, i);
    }
  }

  lemma BracketedStays(s: bytes, more: bytes, i: nat)
    requires i < |s| && (s[i] == QUOTE || s[i] == OPEN_BRACE || s[i] == OPEN_BRACKET)
    requires ReadValue(s, i) != Fail(Truncated)
    ensures ReadValue(s + more, i) == ReadValue(s, i)
    ensures ReadValue(s, i).Got? ==> !ReadValue(s, i).value.Number?
  {
    hide ReadString, AfterNested;
    var whole, b := s + more, s[i];
    assert whole[i] == b;
    if b == QUOTE {
      StringStays(s, more, i);
    } else {
      var close := if b == OPEN_BRACE then CLOSE_BRACE else CLOSE_BRACKET;
      NestedStays(s, more, i + 1, 1, b, close);
      var r := AfterNested(s, i + 1, 1, b, close);
      if r.Got? {
        assert whole[i..r.next] == s[i..r.next];
      }
    }
  }

  lemma TokenStays(s: bytes, more: bytes, i: nat)
    requires i < |s| && s[i] != QUOTE && s[i] != OPEN_BRACE && s[i] != OPEN_BRACKET && ReadValue(s, i).Got?
    ensures var was, now := ReadValue(s, i), ReadValue(s + more, i);
            if was.value.Number? && was.next == |s| && GoesOn(more) then now.Got? && Longer(was.value, now.value)
            else now == was
  {
    hide ReadString, ReadNested, AfterNumber, Ascii;
    var whole, n := s + more, ReadValue(s, i).next;
    assert whole[i] == s[i] && whole[i..n] == s[i..n];
    NumberStays(s, more, i);
  }

  lemma EntryStays(s: bytes, more: bytes, i: nat)
    requires i <= |s| && ReadEntry(s, i).Got?
    ensures var was, now := ReadEntry(s, i), ReadEntry(s + more, i);
            if was.value.value.Number? && was.next == |s| && GoesOn(more)
            then now.Got? && now.value.key == was.value.key && Longer(was.value.value, now.value.value)
            else now == was
  {
    hide ReadString, ReadValue;
    var start := AfterSpaces(s, i);
    NoStringAtEnd(s, start);
    SpacesStay(s, more, i);
    StringStays(s, more, start);
    var n := ReadString(s, start).next;
    SpacesStay(s, more, n);
    var colon := AfterSpaces(s, n);
    var value := AfterSpaces(s, colon + 1);
    NoValueAtEnd(s, value);
    SpacesStay(s, more, colon + 1);
    ValueStays(s, more, value);
  }

  lemma NoStringAtEnd(s: bytes, i: nat)
    ensures ReadString(s, i).Got? ==> i < |s|
  {
  }

  lemma NoValueAtEnd(s: bytes, i: nat)
    ensures ReadValue(s, i).Got? ==> i < |s|
  {
  }

  // ---------------------------------------------------------------- results

  /** Where the value of the first member written `want` ends, if that is found from `i` on. */
  function EndFrom(s: bytes, i: nat, want: bytes): Option<nat>
    requires i <= |s|
    decreases |s| - i
  {
    match ReadEntry(s, i)
    case Fail(_) => None
    case Got(entry, n) =>
      var next := AfterSpaces(s, n);
      if entry.key == want then Some(n)
      else if next < |s| && s[next] == COMMA then EndFrom(s, next + 1, want)
      else None
  }

  /** Where the value ends that `FieldOf` finds. */
  function EndOf(s: bytes, want: bytes): Option<nat> {
    var start := AfterSpaces(s, 0);
    if start >= |s| || s[start] != OPEN_BRACE then None else EndFrom(s, AfterSpaces(s, start + 1), want)
  }

  /** The answer is a number that runs up to the end of the text. */
  predicate NumberAtEnd(s: bytes, answer: Result<Option<Value>, JsonError>, end: Option<nat>) {
    answer.Ok? && answer.value.Some? && answer.value.value.Number? && end == Some(|s|)
  }

  predicate LongerAnswer(was: Result<Option<Value>, JsonError>, now: Result<Option<Value>, JsonError>) {
    was.Ok? && was.value.Some? && now.Ok? && now.value.Some? && Longer(was.value.value, now.value.value)
  }

  lemma {:induction false} FieldStays(s: bytes, more: bytes, i: nat, want: bytes)
    requires i <= |s| && FieldFrom(s, i, want).Ok?
    ensures var was, now := FieldFrom(s, i, want), FieldFrom(s + more, i, want);
            if NumberAtEnd(s, was, EndFrom(s, i, want)) && GoesOn(more) then LongerAnswer(was, now) else now == was
    decreases |s| - i
  {
    hide ReadEntry;
    EntryStays(s, more, i);
    var entry, n := ReadEntry(s, i).value, ReadEntry(s, i).next;
    if entry.key != want {
      SpacesStay(s, more, n);
      if s[AfterSpaces(s, n)] == COMMA {
        FieldStays(s, more, AfterSpaces(s, n) + 1, want);
      }
    }
  }

  /** For any bytes at all: an answer given for the first part of a text is the answer for
      the whole of it if and only if it is not a number at the very end that goes on; then
      more digits are found. */
  lemma FieldOfPart(s: bytes, more: bytes, want: bytes)
    requires FieldOf(s, want).Ok?
    ensures var was, now := FieldOf(s, want), FieldOf(s + more, want);
            && (now == was <==> !(NumberAtEnd(s, was, EndOf(s, want)) && GoesOn(more)))
            && (now != was ==> LongerAnswer(was, now))
  {
    hide FieldFrom, EndFrom, GoesOn;
    SpacesStay(s, more, 0);
    var start := AfterSpaces(s, 0);
    var first := AfterSpaces(s, start + 1);
    NoFieldAtEnd(s, first, want);
    SpacesStay(s, more, start + 1);
    if s[first] != CLOSE_BRACE {
      FieldStays(s, more, first, want);
    }
  }

  lemma NoFieldAtEnd(s: bytes, i: nat, want: bytes)
    requires i <= |s|
    ensures FieldFrom(s, i, want).Ok? ==> i < |s|
  {
    if i == |s| {
      NoStringAtEnd(s, i);
    }
  }

  /** The exception is real: `{"a":1` answers 1, and `{"a":12}` answers 12. */
  lemma DigitsAreCutShort()
    ensures FieldOf([123, 34, 97, 34, 58, 49], [97]) == Ok(Some(Number([49])))
    ensures FieldOf([123, 34, 97, 34, 58, 49] + [50, 125], [97]) == Ok(Some(Number([49, 50])))
  {
    hide FieldOf, ReadValue, AfterNumber;
    var s := [123, 34, 97, 34, 58, 49];
    var whole := s + [50, 125];
    NumberIsTaken(s, 5, [49]);
    NumberIsTaken(whole, 5, [49, 50]);
    OneMember(s);
    OneMember(whole);
    DigitIsRead(s, 6);
    DigitIsRead(whole, 7);
    assert s[5..6] == [49] && whole[5..7] == [49, 50];
  }

  lemma DigitIsRead(s: bytes, n: nat)
    requires |s| > 5 && s[5] == 49 && AfterNumber(s, 5) == n && n > 5
    ensures ReadValue(s, 5) == Got(Number(s[5..n]), n)
  {
    hide AfterNumber;
  }

  lemma OneMember(s: bytes)
    requires |s| >= 6 && s[..6] == [123, 34, 97, 34, 58, 49]
    ensures ReadValue(s, 5).Got? ==> FieldOf(s, [97]) == Ok(Some(ReadValue(s, 5).value))
  {
    hide ReadValue, AfterSpaces, ReadString;
    assert s[0] == 123 && s[1] == 34 && s[4] == 58;
    NoSpaceAt(s, 0);
    NoSpaceAt(s, 1);
    NoSpaceAt(s, 4);
    NoSpaceAt(s, 5);
    assert s[1..4] == Quoted([97]);
    StringIsRead(s, 1, [97]) by {
      AsciiIsUtf8([97]);
    }
  }

  lemma NoSpaceAt(s: bytes, i: nat)
    requires i < |s| && !IsSpace(s[i])
    ensures AfterSpaces(s, i) == i
  {
  }

  /** A string, an object or an array that breaks off anywhere is reported as truncated. */
  lemma CutIsTruncated(t: Tree, k: nat)
    requires WellFormed(t) && (t.Text? || t.Object? || t.Array?) && k < |Render(t)|
    ensures ReadValue(Render(t)[..k], 0) == Fail(Truncated)
  {
    hide WellFormed, Render, ReadValue, Meaning;
    var text := Render(t);
    var s, more := text[..k], text[k..];
    assert text == s + more;
    NothingIsTruncated();
    if k > 0 && ReadValue(s, 0) != Fail(Truncated) {
      FirstByte(t);
      BracketedStays(s, more, 0);
      ValueIsRead(text, 0, t);
      GotIsWithin(s);
      assert false;
    }
  }

  lemma NothingIsTruncated()
    ensures ReadValue([], 0) == Fail(Truncated)
  {
  }

  lemma GotIsWithin(s: bytes)
    ensures ReadValue(s, 0).Got? ==> ReadValue(s, 0).next <= |s|
  {
  }

  /** What cannot start a value is refused, and so is a document that is no object. */
  lemma OtherStartIsMalformed(b: byte, rest: bytes, want: bytes)
    requires b != 32 && b != 9 && b != 10 && b != 13
    ensures b != 34 && b != 123 && b != 91 && b != 116 && b != 102 && b != 110
            && !(48 <= b <= 57) && b != 43 && b != 45 && b != 46 && b != 69 && b != 101
            ==> ReadValue([b] + rest, 0) == Fail(Malformed)
    ensures b != 123 ==> FieldOf([b] + rest, want) == Err(Malformed)
  {
    var s := [b] + rest;
    assert s[0] == b;
    assert !IsNumberByte(b) ==> AfterNumber(s, 0) == 0;
    assert AfterSpaces(s, 0) == 0;
  }
}
