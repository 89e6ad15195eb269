/** Queries as they are made up of questions, and what relaying does to them. */
module MdnsQuestions {
  import opened Bytes
  import opened Mdns

  /** A name in labels, two bytes of type and two of class (section 4.1.2 of RFC 1035). */
  datatype Question = Question(labels: seq<bytes>, kind: bytes, class_: bytes)
  {
    predicate Legal() {
      (forall i :: 0 <= i < |labels| ==> 1 <= |labels[i]| <= 63) && |kind| == 2 && |class_| == 2
    }
  }

  /** Each label behind its length. */
  function LabelsText(labels: seq<bytes>): bytes
    requires forall i :: 0 <= i < |labels| ==> 1 <= |labels[i]| <= 63
  {
    if labels == [] then [] else [|labels[0]|] + labels[0] + LabelsText(labels[1..])
  }

  /** A name ends with a zero byte. */
  function NameText(labels: seq<bytes>): bytes
    requires forall i :: 0 <= i < |labels| ==> 1 <= |labels[i]| <= 63
  {
    LabelsText(labels) + [0]
  }

  /** The walk passes whole labels. */
  lemma {:induction false} LabelsAreWalked(before: bytes, labels: seq<bytes>, rest: bytes)
    requires forall i :: 0 <= i < |labels| ==> 1 <= |labels[i]| <= 63
    ensures var msg := before + LabelsText(labels) + rest;
            NameEnd(msg, |before|) == NameEnd(msg, |before| + |LabelsText(labels)|)
    decreases |labels|
  {
    var msg := before + LabelsText(labels) + rest;
    if labels != [] {
      var first, more := [|labels[0]|] + labels[0], LabelsText(labels[1..]);
      LabelsAreWalked(before + first, labels[1..], rest);
      assert before + first + more + rest == msg == before + first + (more + rest);
      assert msg[|before|] == |labels[0]| && |before| + |first| <= |msg|;
    }
  }

  /** A name ends right behind its zero byte. */
  lemma NameIsWalked(before: bytes, labels: seq<bytes>, after: bytes)
    requires forall i :: 0 <= i < |labels| ==> 1 <= |labels[i]| <= 63
    ensures NameEnd(before + NameText(labels) + after, |before|) == Some(|before| + |NameText(labels)|)
  {
    LabelsAreWalked(before, labels, [0] + after);
    var msg := before + LabelsText(labels) + ([0] + after);
    assert before + NameText(labels) + after == msg && msg[|before| + |LabelsText(labels)|] == 0;
  }

  /** Where a label should start, the end of the message, a byte of 64 or more, or a label that
      ends beyond the message is an error. */
  lemma BadNameIsRefused(before: bytes, labels: seq<bytes>, rest: bytes)
    requires forall i :: 0 <= i < |labels| ==> 1 <= |labels[i]| <= 63
    requires rest == [] || rest[0] >= 64 || (rest[0] > 0 && |rest| < 1 + rest[0])
    ensures NameEnd(before + LabelsText(labels) + rest, |before|) == None
  {
    LabelsAreWalked(before, labels, rest);
    var msg, at := before + LabelsText(labels) + rest, |before| + |LabelsText(labels)|;
    assert rest != [] ==> msg[at] == rest[0];
  }

  function QuestionText(q: Question): bytes
    requires q.Legal()
  {
    NameText(q.labels) + q.kind + q.class_
  }

  ghost predicate AllLegal(qs: seq<Question>) {
    forall i :: 0 <= i < |qs| ==> qs[i].Legal()
  }

  function QuestionsText(qs: seq<Question>): bytes
    requires AllLegal(qs)
  {
    if qs == [] then [] else QuestionText(qs[0]) + QuestionsText(qs[1..])
  }

  /** Where the class of each question stands when the first one starts at `at`. */
  function Offsets(at: nat, qs: seq<Question>): seq<nat>
    requires AllLegal(qs)
    decreases |qs|
  {
    if qs == [] then []
    else [at + |NameText(qs[0].labels)| + 2] + Offsets(at + |QuestionText(qs[0])|, qs[1..])
  }

  lemma {:induction false} QuestionsAreVisited(before: bytes, qs: seq<Question>, rest: bytes)
    requires AllLegal(qs)
    ensures WalkFrom(before + QuestionsText(qs) + rest, |before|, |qs|) == Walk(Offsets(|before|, qs), true)
    decreases |qs|
  {
    hide NameText, NameEnd, QuestionText, WalkFrom;
    var msg := before + QuestionsText(qs) + rest;
    if qs != [] {
      var q := qs[0];
      var text, more := QuestionText(q), QuestionsText(qs[1..]);
      QuestionsAreVisited(before + text, qs[1..], rest);
      NameIsWalked(before, q.labels, q.kind + q.class_ + more + rest);
      QuestionInPlace(before, q, more, rest);
      WalkStep(msg, |before|, |qs|);
    } else {
      NoQuestions(msg, |before|);
    }
  }

  lemma QuestionInPlace(before: bytes, q: Question, more: bytes, rest: bytes)
    requires q.Legal()
    ensures var name, msg := NameText(q.labels), before + (QuestionText(q) + more) + rest;
            && before + QuestionText(q) + more + rest == msg && before + name + (q.kind + q.class_ + more + rest) == msg
            && |before + QuestionText(q)| == |before| + |name| + 4 && |before| + |name| + 4 <= |msg|
  {
    hide NameText;
  }

  /** The question with the top bit of its class set or cleared, and nothing else changed. */
  function Asking(q: Question, unicast: bool): (r: Question)
    requires q.Legal()
    ensures r.Legal()
  {
    q.(class_ := [q.class_[0] % 128 + if unicast then 128 else 0, q.class_[1]])
  }

  function AllAsking(qs: seq<Question>, unicast: bool): (r: seq<Question>)
    requires AllLegal(qs)
    ensures AllLegal(r) && |r| == |qs|
  {
    seq(|qs|, i requires 0 <= i < |qs| => Asking(qs[i], unicast))
  }

  lemma {:induction false} OffsetsAreBeyond(at: nat, qs: seq<Question>)
    requires AllLegal(qs)
    ensures forall i :: 0 <= i < |Offsets(at, qs)| ==> at < Offsets(at, qs)[i]
    decreases |qs|
  {
    hide NameText;
    if qs != [] {
      OffsetsAreBeyond(at + |QuestionText(qs[0])|, qs[1..]);
    }
  }

  /** Marking the classes is writing the same questions with the bit as asked. */
  lemma {:induction false} MarkingIsAsking(before: bytes, qs: seq<Question>, rest: bytes, unicast: bool)
    requires AllLegal(qs)
    ensures Marked(before + QuestionsText(qs) + rest, Offsets(|before|, qs), unicast)
         == before + QuestionsText(AllAsking(qs, unicast)) + rest
    decreases |qs|
  {
    hide NameText, QuestionText, Marked, Asking, QuestionsText, Offsets, WithQu;
    var msg := before + QuestionsText(qs) + rest;
    if qs == [] {
      NothingMarked(before, qs, rest, unicast);
    } else {
      var q := qs[0];
      var text, at := QuestionText(q), |before| + |NameText(q.labels)| + 2;
      var more, others := QuestionsText(AllAsking(qs[1..], unicast)), Offsets(|before + text|, qs[1..]);
      FirstQuestion(before, qs, rest, unicast);
      MarkingIsAsking(before + text, qs[1..], rest, unicast);
      OffsetsAreBeyond(|before + text|, qs[1..]);
      ClassAt(before, q, QuestionsText(qs[1..]) + rest);
      OneMore(msg, at, others, unicast);
      Replaced(before, q, more + rest, unicast);
    }
  }

  lemma NothingMarked(before: bytes, qs: seq<Question>, rest: bytes, unicast: bool)
    requires qs == []
    ensures QuestionsText(qs) == QuestionsText(AllAsking(qs, unicast)) == [] && Offsets(|before|, qs) == []
    ensures Marked(before + [] + rest, [], unicast) == before + [] + rest
  {
  }

  /** The first question of a query and the others. */
  lemma FirstQuestion(before: bytes, qs: seq<Question>, rest: bytes, unicast: bool)
    requires AllLegal(qs) && qs != []
    ensures AllLegal(qs[1..])
    ensures var text, more := QuestionText(qs[0]), QuestionsText(AllAsking(qs[1..], unicast));
            && before + QuestionsText(qs) + rest == before + text + QuestionsText(qs[1..]) + rest
               == before + text + (QuestionsText(qs[1..]) + rest)
            && before + text + more + rest == before + text + (more + rest)
            && before + QuestionsText(AllAsking(qs, unicast)) + rest
               == before + QuestionText(Asking(qs[0], unicast)) + (more + rest)
            && Offsets(|before|, qs)
               == [|before| + |NameText(qs[0].labels)| + 2] + Offsets(|before + text|, qs[1..])
            && |before| + |NameText(qs[0].labels)| + 2 < |before + text|
  {
    hide NameText, Asking;
    assert AllAsking(qs, unicast)[1..] == AllAsking(qs[1..], unicast);
    var a, b, c := QuestionText(qs[0]), QuestionsText(qs[1..]), QuestionsText(AllAsking(qs[1..], unicast));
    assert before + (a + b) + rest == before + a + b + rest == before + a + (b + rest);
    var d := QuestionText(Asking(qs[0], unicast));
    assert before + (d + c) + rest == before + d + (c + rest);
  }

  lemma ClassAt(before: bytes, q: Question, after: bytes)
    requires q.Legal()
    ensures var at := |before| + |NameText(q.labels)| + 2;
            at < |before + QuestionText(q) + after| && (before + QuestionText(q) + after)[at] == q.class_[0]
  {
  }

  lemma OneMore(msg: bytes, at: nat, others: seq<nat>, unicast: bool)
    requires at < |msg| && at !in others
    ensures Marked(msg, [at] + others, unicast) == Marked(msg, others, unicast)[at := WithQu(msg[at], unicast)]
  {
  }

  lemma Replaced(before: bytes, q: Question, after: bytes, unicast: bool)
    requires q.Legal()
    ensures var at := |before| + |NameText(q.labels)| + 2;
            && at < |before + QuestionText(q) + after|
            && (before + QuestionText(q) + after)[at := WithQu(q.class_[0], unicast)]
               == before + QuestionText(Asking(q, unicast)) + after
  {
  }

  /** A query of `n` questions, with anything behind them: every question asks as it should,
      nothing else changes, and `n` is reported. */
  lemma QueryIsRewritten(header: bytes, qs: seq<Question>, rest: bytes, unicast: bool)
    requires |header| == 12 && header[4] as int * 256 + header[5] == |qs| && AllLegal(qs)
    ensures Visited(header + QuestionsText(qs) + rest) == Walk(Offsets(12, qs), true)
    ensures Rewrite(header + QuestionsText(qs) + rest, unicast)
         == Rewritten(header + QuestionsText(AllAsking(qs, unicast)) + rest, Ok(|qs|))
  {
    hide QuestionsText, Marked, WalkFrom, Offsets, Visited, AllAsking;
    QueryIsVisited(header, QuestionsText(qs), rest, |qs|);
    QuestionsAreVisited(header, qs, rest);
    MarkingIsAsking(header, qs, rest, unicast);
    OffsetsLength(12, qs);
  }

  lemma QueryIsVisited(header: bytes, text: bytes, rest: bytes, n: nat)
    requires |header| == 12 && header[4] as int * 256 + header[5] == n
    ensures Visited(header + text + rest) == WalkFrom(header + text + rest, 12, n)
  {
    hide WalkFrom;
    var msg := header + text + rest;
    assert msg[4] == header[4] && msg[5] == header[5];
  }

  lemma {:induction false} OffsetsLength(at: nat, qs: seq<Question>)
    requires AllLegal(qs)
    ensures |Offsets(at, qs)| == |qs|
    decreases |qs|
  {
    hide NameText;
    if qs != [] {
      OffsetsLength(at + |QuestionText(qs[0])|, qs[1..]);
    }
  }
}
