/** The one-shot view of a length-prefixed byte stream.

    Noise records, HTTP/2 frames, DERP frames and netmap frames all have the same
    shape: a header of fixed length that announces how long the body is. `Cut` is
    the reference parse of a whole stream held in memory; every incremental
    reader is proved against it. */
module Framing {
  import opened Bytes

  /** A framing: header length, body length announced by a header, and the headers
      a reader refuses. */
  datatype Format = Format(head: nat, size: bytes -> nat, legal: bytes -> bool)

  predicate Stuck(f: Format, s: bytes) {
    |s| >= f.head && !f.legal(s[..f.head])
  }

  /** Length of the frame that starts `s`. */
  function FrameLen(f: Format, s: bytes): nat
    requires |s| >= f.head
  {
    f.head + f.size(s[..f.head])
  }

  /** `s` starts with a complete, acceptable frame. */
  predicate Whole(f: Format, s: bytes) {
    |s| >= f.head && f.legal(s[..f.head]) && |s| >= FrameLen(f, s)
  }

  /** `s` is one frame and nothing more. */
  predicate Exact(f: Format, s: bytes) {
    Whole(f, s) && |s| == FrameLen(f, s)
  }

  datatype Parsed = Parsed(frames: seq<bytes>, rest: bytes)

  /** Cuts a stream into its complete frames and the unfinished tail. */
  function Cut(f: Format, s: bytes): Parsed
    requires f.head > 0
    decreases |s|
  {
    if Whole(f, s) then
      var n := FrameLen(f, s);
      var more := Cut(f, s[n..]);
      Parsed([s[..n]] + more.frames, more.rest)
    else
      Parsed([], s)
  }

  ghost predicate AllExact(f: Format, frames: seq<bytes>) {
    forall i :: 0 <= i < |frames| ==> Exact(f, frames[i])
  }

  /** `Cut` only places boundaries: nothing is lost, and it stops only where no
      further frame is complete. */
  lemma {:induction false} CutCovers(f: Format, s: bytes)
    requires f.head > 0
    ensures Flatten(Cut(f, s).frames) + Cut(f, s).rest == s
    ensures AllExact(f, Cut(f, s).frames)
    ensures !Whole(f, Cut(f, s).rest)
    decreases |s|
  {
    hide Exact;
    if Whole(f, s) {
      var n := FrameLen(f, s);
      var first, more := s[..n], Cut(f, s[n..]);
      CutCovers(f, s[n..]);
      FlattenCons(first, more.frames);
      FirstIsExact(f, s);
      assert s == first + (Flatten(more.frames) + more.rest);
    } else {
      assert Flatten<byte>([]) + s == s;
    }
  }

  lemma FirstIsExact(f: Format, s: bytes)
    requires Whole(f, s)
    ensures Exact(f, s[..FrameLen(f, s)])
  {
    assert s[..FrameLen(f, s)][..f.head] == s[..f.head];
  }

  /** A complete frame at the front is the first thing cut off. */
  lemma CutStep(f: Format, frame: bytes, tail: bytes)
    requires f.head > 0 && Exact(f, frame)
    ensures Cut(f, frame + tail) == Parsed([frame] + Cut(f, tail).frames, Cut(f, tail).rest)
  {
    var s := frame + tail;
    assert s[..f.head] == frame[..f.head];
    assert s[..|frame|] == frame && s[|frame|..] == tail;
  }

  /** Cutting undoes concatenation: however frames were chosen, if each is exactly
      one frame then those are the frames found. */
  lemma {:induction false} CutUnique(f: Format, frames: seq<bytes>, tail: bytes)
    requires f.head > 0 && AllExact(f, frames)
    ensures Cut(f, Flatten(frames) + tail) == Parsed(frames + Cut(f, tail).frames, Cut(f, tail).rest)
  {
    if frames == [] {
      assert Flatten(frames) + tail == tail;
    } else {
      CutUnique(f, frames[1..], tail);
      CutStep(f, frames[0], Flatten(frames[1..]) + tail);
      assert Flatten(frames) + tail == frames[0] + (Flatten(frames[1..]) + tail);
      assert frames == [frames[0]] + frames[1..];
    }
  }

  /** Frames found so far never change when more bytes arrive; only the tail is
      parsed again. */
  lemma CutConcat(f: Format, s: bytes, more: bytes)
    requires f.head > 0
    ensures Cut(f, s + more).frames == Cut(f, s).frames + Cut(f, Cut(f, s).rest + more).frames
    ensures Cut(f, s + more).rest == Cut(f, Cut(f, s).rest + more).rest
  {
    CutCovers(f, s);
    var c := Cut(f, s);
    CutUnique(f, c.frames, c.rest + more);
    assert s + more == Flatten(c.frames) + (c.rest + more);
  }

  /** The inverse of any writer of this framing: its output, followed by a prefix
      that is not yet a frame, parses back to exactly the frames written. */
  lemma CutInvertsWriter(f: Format, frames: seq<bytes>, partial: bytes)
    requires f.head > 0 && AllExact(f, frames) && !Whole(f, partial)
    ensures Cut(f, Flatten(frames) + partial) == Parsed(frames, partial)
  {
    CutUnique(f, frames, partial);
    assert frames + [] == frames;
  }

  /** When `s` is a prefix of a stream of frames, the frames cut from `s` are the
      first of them and the rest is what is still to come. */
  lemma {:induction false} CutOfPrefix(f: Format, frames: seq<bytes>, s: bytes, later: bytes)
    requires f.head > 0 && AllExact(f, frames) && s + later == Flatten(frames)
    ensures |Cut(f, s).frames| <= |frames|
    ensures Cut(f, s).frames == frames[..|Cut(f, s).frames|]
    ensures Cut(f, s).rest + later == Flatten(frames[|Cut(f, s).frames|..])
    ensures !Stuck(f, Cut(f, s).rest)
    decreases |frames|
  {
    if frames == [] {
      assert s == [] && later == [];
    } else {
      var first := frames[0];
      assert Flatten(frames) == first + Flatten(frames[1..]);
      assert (s + later)[..|first|] == first;
      if |s| >= f.head {
        assert s[..f.head] == (s + later)[..f.head] == first[..f.head];
      }
      if Whole(f, s) {
        var n := FrameLen(f, s);
        assert n == |first|;
        assert s[..n] == (s + later)[..n] == first;
        assert s[n..] + later == (s + later)[n..] == Flatten(frames[1..]);
        CutOfPrefix(f, frames[1..], s[n..], later);
        var k := |Cut(f, s[n..]).frames|;
        assert frames[..k + 1] == [first] + frames[1..][..k];
        assert frames[k + 1..] == frames[1..][k..];
      } else {
        assert frames[..0] == [] && frames[0..] == frames;
      }
    }
  }

  /** An incremental reader that held `before` of an unfinished frame has taken `used`
      and now holds `after`, having finished the frame or not. */
  ghost predicate Advanced(f: Format, before: bytes, used: bytes, done: bool, after: bytes) {
    if done then Exact(f, before + used) && after == []
    else !Whole(f, before + used) && after == before + used
  }

  /** A reader that advances frame by frame follows the one-shot parse of everything
      it has been given. */
  lemma AdvancedFollowsCut(f: Format, stream: bytes, used: bytes, done: bool, after: bytes)
    requires f.head > 0 && Advanced(f, Cut(f, stream).rest, used, done, after)
    ensures Cut(f, stream + used).rest == after
    ensures Cut(f, stream + used).frames ==
            Cut(f, stream).frames + if done then [Cut(f, stream).rest + used] else []
  {
    var whole := Cut(f, stream).rest + used;
    CutConcat(f, stream, used);
    if done {
      CutStep(f, whole, []);
      assert whole + [] == whole;
    }
  }
}
