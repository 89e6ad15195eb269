/** Relaying mDNS: the one bit that changes in a question, and its way back. */
module Mdns {
  import opened Bytes

  const HEADER_LEN: nat := 12
  const QU_BIT: byte := 0x80

  datatype MdnsError = Malformed

  /** Where the name at `pos` ends; compression pointers are refused. */
  function NameEnd(msg: bytes, pos: nat): (end: Option<nat>)
    ensures end.Some? ==> pos < end.value <= |msg|
    decreases |msg| - pos
  {
    if pos >= |msg| || msg[pos] >= 0x40 then None
    else if msg[pos] == 0 then Some(pos + 1)
    else if pos + 1 + msg[pos] > |msg| then None
    else NameEnd(msg, pos + 1 + msg[pos])
  }

  /** A walk over questions: where each one's class begins, and whether all were there. */
  datatype Walk = Walk(classes: seq<nat>, complete: bool)

  function WalkFrom(msg: bytes, pos: nat, questions: nat): (w: Walk)
    ensures |w.classes| <= questions && (w.complete <==> |w.classes| == questions)
    decreases questions
  {
    if questions == 0 then Walk([], true)
    else
      match NameEnd(msg, pos)
      case None => Walk([], false)
      case Some(end) =>
        if end + 4 > |msg| then Walk([], false)
        else
          var rest := WalkFrom(msg, end + 4, questions - 1);
          Walk([end + 2] + rest.classes, rest.complete)
  }

  /** Classes stand in order, each past the name before it and within the message. */
  lemma {:induction false} ClassesAreOrdered(msg: bytes, pos: nat, questions: nat)
    ensures var classes := WalkFrom(msg, pos, questions).classes;
            && (forall k :: 0 <= k < |classes| ==> pos + 3 <= classes[k] && classes[k] + 2 <= |msg|)
            && (forall j, k :: 0 <= j < k < |classes| ==> classes[j] + 2 < classes[k])
    decreases questions
  {
    hide NameEnd;
    var end := NameEnd(msg, pos);
    if questions > 0 && end.Some? && end.value + 4 <= |msg| {
      ClassesAreOrdered(msg, end.value + 4, questions - 1);
      var classes, rest := WalkFrom(msg, pos, questions).classes, WalkFrom(msg, end.value + 4, questions - 1).classes;
      WalkStep(msg, pos, questions);
      forall k | 0 < k < |classes| ensures classes[k] == rest[k - 1] {
      }
      forall j, k | 0 <= j < k < |classes| ensures classes[j] + 2 < classes[k] {
        assert j > 0 ==> classes[j] == rest[j - 1];
        assert classes[k] == rest[k - 1];
      }
    }
  }

  /** One question of a walk. */
  lemma WalkStep(msg: bytes, pos: nat, questions: nat)
    requires questions > 0
    ensures var w := WalkFrom(msg, pos, questions);
            match NameEnd(msg, pos)
            case None => w == Walk([], false)
            case Some(end) =>
              if end + 4 > |msg| then w == Walk([], false)
              else var rest := WalkFrom(msg, end + 4, questions - 1);
                   w == Walk([end + 2] + rest.classes, rest.complete)
  {
  }

  lemma NoQuestions(msg: bytes, pos: nat)
    ensures WalkFrom(msg, pos, 0) == Walk([], true)
  {
  }

  /** The number of questions a message announces. */
  function Questions(msg: bytes): (n: nat)
    requires |msg| >= HEADER_LEN
    ensures n < 0x1_0000
  {
    msg[4] as int * 256 + msg[5]
  }

  function Visited(msg: bytes): Walk {
    if |msg| < HEADER_LEN then Walk([], false) else WalkFrom(msg, HEADER_LEN, Questions(msg))
  }

  function WithQu(b: byte, unicast: bool): byte {
    b % QU_BIT + if unicast then QU_BIT as int else 0
  }

  /** The message with the top bit of the given classes set or cleared. */
  function Marked(msg: bytes, classes: seq<nat>, unicast: bool): (r: bytes)
    ensures |r| == |msg|
  {
    seq(|msg|, i requires 0 <= i < |msg| => if i in classes then WithQu(msg[i], unicast) else msg[i])
  }

  /** What a rewrite leaves and reports; a malformed message may be rewritten in part. */
  datatype Rewritten = Rewritten(msg: bytes, result: Result<nat, MdnsError>)

  function Rewrite(msg: bytes, unicast: bool): Rewritten {
    var w := Visited(msg);
    Rewritten(Marked(msg, w.classes, unicast), if w.complete then Ok(|w.classes|) else Err(Malformed))
  }

  // ---------------------------------------------------------------- the code

  method SkipName(msg: array<byte>, start: nat) returns (r: Result<nat, MdnsError>)
    ensures r == match NameEnd(msg[..], start) case None => Err(Malformed) case Some(end) => Ok(end)
  {
    var pos := start;
    while true
      invariant NameEnd(msg[..], pos) == NameEnd(msg[..], start)
      decreases msg.Length - pos
    {
      if pos >= msg.Length {
        return Err(Malformed);
      }
      var len := msg[pos];
      if len >= 0x40 {
        return Err(Malformed);
      }
      pos := pos + 1;
      if len == 0 {
        return Ok(pos);
      }
      pos := pos + len;
      if pos > msg.Length {
        return Err(Malformed);
      }
    }
  }

  method RewriteQuestionClass(msg: array<byte>, unicast: bool) returns (r: Result<nat, MdnsError>)
    modifies msg
    ensures Rewritten(msg[..], r) == Rewrite(old(msg[..]), unicast)
  {
    hide NameEnd, WithQu, WalkFrom, Marked, SameFrom;
    ghost var was := msg[..];
    NothingMarked(was, unicast);
    if msg.Length < HEADER_LEN {
      return Err(Malformed);
    }
    var questions := msg[4] as int * 256 + msg[5];
    var pos: nat := HEADER_LEN;
    ghost var done: seq<nat> := [];
    ghost var all := WalkFrom(was, pos, questions);
    assert [] + all.classes == all.classes;
    for n := 0 to questions
      invariant msg[..] == Marked(was, done, unicast) && |done| == n
      invariant forall k :: 0 <= k < n ==> done[k] < pos
      invariant var left := WalkFrom(was, pos, questions - n);
                all.classes == done + left.classes && all.complete == left.complete
    {
      MarkedBefore(was, done, pos, unicast);
      SameName(was, msg[..], pos);
      WalkStep(was, pos, questions - n);
      var end := SkipName(msg, pos);
      if end.Err? {
        assert done + [] == done;
        return Err(end.error);
      }
      var classAt := end.value + 2;
      if classAt + 2 > msg.Length {
        assert done + [] == done;
        return Err(Malformed);
      }
      ghost var left := WalkFrom(was, classAt + 2, questions - n - 1).classes;
      ClassIsMarked(was, done, classAt, unicast);
      Associate(done, classAt, left);
      msg[classAt] := WithQu(msg[classAt], unicast);
      done := done + [classAt];
      pos := classAt + 2;
    }
    NoQuestions(was, pos);
    assert done + [] == done;
    r := Ok(questions);
  }

  lemma NothingMarked(msg: bytes, unicast: bool)
    ensures Marked(msg, [], unicast) == msg
  {
  }

  lemma MarkedBefore(was: bytes, done: seq<nat>, pos: nat, unicast: bool)
    requires forall k :: 0 <= k < |done| ==> done[k] < pos
    ensures forall end :: SameFrom(was, Marked(was, done, unicast), pos, end)
  {
  }

  lemma Associate(done: seq<nat>, at: nat, left: seq<nat>)
    ensures done + ([at] + left) == done + [at] + left
  {
  }

  lemma ClassIsMarked(was: bytes, done: seq<nat>, at: nat, unicast: bool)
    requires at < |was| && at !in done
    ensures Marked(was, done, unicast)[at := WithQu(was[at], unicast)] == Marked(was, done + [at], unicast)
    ensures Marked(was, done, unicast)[at] == was[at]
  {
  }

  method RequestUnicastReplies(msg: array<byte>) returns (r: Result<nat, MdnsError>)
    modifies msg
    ensures Rewritten(msg[..], r) == Rewrite(old(msg[..]), true)
  {
    r := RewriteQuestionClass(msg, true);
  }

  method RestoreMulticastQuestions(msg: array<byte>) returns (r: Result<nat, MdnsError>)
    modifies msg
    ensures Rewritten(msg[..], r) == Rewrite(old(msg[..]), false)
  {
    r := RewriteQuestionClass(msg, false);
  }

  // ---------------------------------------------------------------- the way back

  ghost predicate SameFrom(a: bytes, b: bytes, pos: nat, end: nat) {
    |a| == |b| && forall i :: pos <= i < end && i < |a| ==> a[i] == b[i]
  }

  /** A name depends on its own bytes only. */
  lemma {:induction false} SameName(a: bytes, b: bytes, pos: nat)
    requires SameFrom(a, b, pos, match NameEnd(a, pos) case None => |a| case Some(end) => end)
    ensures NameEnd(b, pos) == NameEnd(a, pos)
    decreases |a| - pos
  {
    if pos < |a| && 0 < a[pos] < 0x40 && pos + 1 + a[pos] <= |a| {
      SameName(a, b, pos + 1 + a[pos]);
    }
  }

  /** `a` and `b` differ from `pos` on only where a walk over `a` marks. */
  ghost predicate SameBut(a: bytes, b: bytes, pos: nat, classes: seq<nat>) {
    |a| == |b| && forall i :: pos <= i < |a| && i !in classes ==> a[i] == b[i]
  }

  lemma SameButSplits(a: bytes, b: bytes, pos: nat, end: nat, rest: seq<nat>)
    requires SameBut(a, b, pos, [end + 2] + rest) && pos <= end
    requires forall k :: 0 <= k < |rest| ==> end + 4 <= rest[k]
    ensures SameFrom(a, b, pos, end) && SameBut(a, b, end + 4, rest)
  {
  }

  /** The walk never reads a byte that it marks. */
  lemma {:induction false} SameWalk(a: bytes, b: bytes, pos: nat, questions: nat)
    requires SameBut(a, b, pos, WalkFrom(a, pos, questions).classes)
    ensures WalkFrom(b, pos, questions) == WalkFrom(a, pos, questions)
    decreases questions
  {
    hide NameEnd, WalkFrom, SameBut, SameFrom;
    SameLength(a, b, pos, WalkFrom(a, pos, questions).classes);
    if questions == 0 {
      NoQuestions(a, pos);
      NoQuestions(b, pos);
    } else {
      WalkStep(a, pos, questions);
      WalkStep(b, pos, questions);
      var end := NameEnd(a, pos);
      if end.Some? && end.value + 4 <= |a| {
        var rest := WalkFrom(a, end.value + 4, questions - 1);
        ClassesAreOrdered(a, end.value + 4, questions - 1);
        SameButSplits(a, b, pos, end.value, rest.classes);
        SameWalk(a, b, end.value + 4, questions - 1);
      }
      SameName(a, b, pos);
    }
  }

  lemma SameLength(a: bytes, b: bytes, pos: nat, classes: seq<nat>)
    requires SameBut(a, b, pos, classes)
    ensures |a| == |b|
    ensures classes == [] ==> forall end :: SameFrom(a, b, pos, end)
  {
  }

  /** A rewrite does not change which bytes a rewrite visits, nor what it reports. */
  lemma MarkingKeepsWalk(msg: bytes, unicast: bool)
    ensures Visited(Marked(msg, Visited(msg).classes, unicast)) == Visited(msg)
  {
    hide WalkFrom, WithQu;
    if |msg| >= HEADER_LEN {
      ClassesAreOrdered(msg, HEADER_LEN, Questions(msg));
      SameWalk(msg, Marked(msg, Visited(msg).classes, unicast), HEADER_LEN, Questions(msg));
    }
  }

  ghost predicate AllQu(msg: bytes, unicast: bool) {
    var classes := Visited(msg).classes;
    forall k :: 0 <= k < |classes| && classes[k] < |msg| ==> (msg[classes[k]] >= QU_BIT <==> unicast)
  }

  lemma WithQuTwice(b: byte, unicast: bool)
    ensures WithQu(WithQu(b, unicast), !unicast) == b <==> (b >= QU_BIT <==> !unicast)
    ensures WithQu(b, unicast) % QU_BIT == b % QU_BIT
    ensures WithQu(b, unicast) >= QU_BIT <==> unicast
  {
  }

  lemma ClassesInBounds(msg: bytes)
    ensures var classes := Visited(msg).classes;
            forall k :: 0 <= k < |classes| ==> HEADER_LEN < classes[k] < |msg|
  {
    hide WalkFrom;
    if |msg| >= HEADER_LEN {
      ClassesAreOrdered(msg, HEADER_LEN, Questions(msg));
      assert Visited(msg) == WalkFrom(msg, HEADER_LEN, Questions(msg));
    }
  }

  /** Restoring undoes requesting exactly when no visited question asked for unicast to
      begin with, whether the message is well formed or not; both report the same. */
  lemma RestoreUndoesRequest(msg: bytes, unicast: bool)
    ensures var first := Rewrite(msg, unicast);
            var second := Rewrite(first.msg, !unicast);
            && second.result == first.result
            && (second.msg == msg <==> AllQu(msg, !unicast))
  {
    hide Visited, WithQu;
    MarkingKeepsWalk(msg, unicast);
    ClassesInBounds(msg);
    var classes := Visited(msg).classes;
    var first := Marked(msg, classes, unicast);
    var second := Marked(first, classes, !unicast);
    forall i | 0 <= i < |msg|
      ensures second[i] == if i in classes then WithQu(WithQu(msg[i], unicast), !unicast) else msg[i]
    {
    }
    forall k | 0 <= k < |classes|
      ensures second[classes[k]] == msg[classes[k]] <==> (msg[classes[k]] >= QU_BIT <==> !unicast)
    {
      WithQuTwice(msg[classes[k]], unicast);
    }
  }

  /** A message with one question, for the root, that asked for unicast itself. */
  const ASKED: bytes := [0, 0, 0, 0, 0, 1, 0, 0, 0, 0, 0, 0, 0, 0, 12, 0x80, 1]

  /** The failing case: what comes back asks for multicast. */
  lemma OwnUnicastIsLost()
    ensures var first := Rewrite(ASKED, true);
            first.result == Ok(1) && Rewrite(first.msg, false).msg != ASKED
  {
    hide Marked;
    assert NameEnd(ASKED, 12) == Some(13);
    NoQuestions(ASKED, 17);
    WalkStep(ASKED, 12, 1);
    assert Visited(ASKED) == Walk([15], true);
    assert Visited(ASKED).classes[0] == 15 && ASKED[15] >= QU_BIT;
    RestoreUndoesRequest(ASKED, true);
  }

  /** A rewrite changes the top bit of the visited classes and nothing else, and leaves all
      of them as asked. */
  lemma OnlyClassBitsChange(msg: bytes, unicast: bool)
    ensures var r := Rewrite(msg, unicast).msg;
            && |r| == |msg| && AllQu(r, unicast)
            && (forall i :: 0 <= i < |msg| ==> r[i] % QU_BIT == msg[i] % QU_BIT)
            && (forall i :: 0 <= i < |msg| && i !in Visited(msg).classes ==> r[i] == msg[i])
            && (forall i :: 0 <= i < |msg| && i < HEADER_LEN ==> r[i] == msg[i])
  {
    hide Visited, WithQu;
    MarkingKeepsWalk(msg, unicast);
    ClassesInBounds(msg);
    forall i | 0 <= i < |msg|
      ensures var r := Rewrite(msg, unicast).msg; r[i] % QU_BIT == msg[i] % QU_BIT
      ensures WithQu(msg[i], unicast) >= QU_BIT <==> unicast
    {
      WithQuTwice(msg[i], unicast);
    }
  }
}
