/** The relay loop: bytes between a peer's connection and a LAN host. */
module Relay {
  import opened Bytes

  const PEER_BUF: nat := 1024
  const HELD: nat := 2048
  const LAN_PATIENCE: nat := 6_000
  const IDLE_LIMIT: nat := 900_000

  datatype Reason = SocketInactive | ClientFinished | LanWriteFailed | LanSilent | IdleTooLong | LanClosed | LanError

  /** The endings that leave nothing from the LAN undelivered. */
  predicate Lossless(reason: Reason) {
    reason == LanClosed || reason == LanError || reason == LanSilent
  }

  /** What the read with a deadline finds on the LAN side. */
  datatype LanRead = Nothing | Offered(len: nat) | Closed | Failed

  /** What the environment does during one turn of the loop. Counts are offers: no more
      is taken than there is, nor more than a buffer holds. */
  datatype Turn = Turn(
    now: nat, active: bool, arrived: nat, finished: bool, written: nat, fails: bool, room: nat, read: LanRead)

  /** Why a turn ends the relay, given how much came from the peer, what either side still
      has to say, whether the LAN was ever heard, the silence so far and what is held. */
  function Ending(t: Turn, came: nat, peerLeft: nat, heard: bool, waited: int, holding: bool, lanLeft: nat)
    : Option<Reason>
  {
    if !t.active then Some(SocketInactive)
    else if t.finished && peerLeft == 0 && came == 0 then Some(ClientFinished)
    else if t.fails && t.written < came then Some(LanWriteFailed)
    else if !heard && waited > LAN_PATIENCE then Some(LanSilent)
    else if waited > IDLE_LIMIT then Some(IdleTooLong)
    else if holding then None
    else if t.read == Failed then Some(LanError)
    else if t.read == Closed && lanLeft == 0 then Some(LanClosed)
    else None
  }

  /** One side of a connection: what is still to come from it, what was taken from it and
      what it was given. */
  class Stream {
    var unread: bytes
    var taken: bytes
    var given: bytes

    constructor (unread: bytes)
      ensures this.unread == unread && taken == [] && given == []
    {
      this.unread, taken, given := unread, [], [];
    }

    method Take(buf: array<byte>, offered: nat) returns (n: nat)
      modifies `unread, `taken, buf
      ensures n == Min(offered, Min(buf.Length, |old(unread)|))
      ensures buf[..n] == old(unread)[..n] && unread == old(unread)[n..] && taken == old(taken) + buf[..n]
      ensures taken + unread == old(taken + unread)
    {
      n := Min(offered, Min(buf.Length, |unread|));
      forall i | 0 <= i < n { buf[i] := unread[i]; }
      assert buf[..n] == unread[..n];
      taken, unread := taken + unread[..n], unread[n..];
    }

    method Give(chunk: bytes, room: nat) returns (n: nat)
      modifies `given
      ensures n == Min(room, |chunk|) && given == old(given) + chunk[..n]
    {
      n := Min(room, |chunk|);
      given := given + chunk[..n];
    }
  }

  class Splice {
    const peer: Stream
    const lan: Stream
    const held: array<byte>
    var start: nat
    var end: nat
    var heard: bool
    var lastActivity: nat

    /** What separates `lan.taken` from `peer.given`. */
    ghost function Pending(): bytes
      reads `start, `end, held
      requires start <= end <= held.Length
    {
      held[start..end]
    }

    ghost predicate Valid()
      reads `start, `end, `heard, held, lan, peer
    {
      && held.Length == HELD && peer != lan
      && start <= end <= HELD
      && lan.taken == peer.given + Pending()
      && lan.given <= peer.taken
      && (heard <==> lan.taken != [])
    }

    /** Between turns nothing taken from the peer is waiting. */
    ghost predicate Flowing()
      reads `start, `end, `heard, held, lan, peer
    {
      Valid() && lan.given == peer.taken
    }

    constructor (peer: Stream, lan: Stream, now: nat)
      requires peer != lan && peer.taken == peer.given == lan.taken == lan.given == []
      ensures Flowing() && this.peer == peer && this.lan == lan && fresh(held)
      ensures Pending() == [] && !heard && lastActivity == now
    {
      this.peer, this.lan := peer, lan;
      held := new byte[HELD];
      start, end, heard, lastActivity := 0, 0, false, now;
    }

    /** Offers the peer's socket what is held. */
    method Drain(room: nat)
      requires Flowing() && start < end
      modifies `start, peer`given
      ensures Flowing() && end == old(end)
      ensures Pending() == old(Pending())[Min(room, |old(Pending())|)..]
    {
      ghost var was := Pending();
      var sent := peer.Give(held[start..end], room);
      start := start + sent;
      assert was == was[..sent] + was[sent..] && Pending() == was[sent..];
      assert old(peer.given) + was == peer.given + Pending();
    }

    /** Reads the LAN once nothing is held. */
    method Fill(now: nat, len: nat)
      requires Flowing() && start == end
      modifies `start, `end, `heard, `lastActivity, held, lan`unread, lan`taken
      ensures Flowing()
      ensures Pending() == old(lan.unread)[..Min(len, Min(HELD, |old(lan.unread)|))]
      ensures lan.taken == old(lan.taken) + Pending() && lan.taken + lan.unread == old(lan.taken + lan.unread)
      ensures lastActivity == if |lan.taken| > |old(lan.taken)| then now else old(lastActivity)
    {
      assert lan.taken == peer.given;
      var n := lan.Take(held, len);
      start, end := 0, n;
      if n > 0 {
        heard, lastActivity := true, now;
      }
    }

    /** Passes on what the peer sent; false if the LAN stopped taking it part way. */
    method Forward(turn: Turn) returns (n: nat, ok: bool)
      requires Flowing()
      modifies `lastActivity, peer`unread, peer`taken, lan`given
      ensures Valid() && (ok ==> Flowing()) && Pending() == old(Pending())
      ensures peer.taken + peer.unread == old(peer.taken + peer.unread)
      ensures n == Min(turn.arrived, Min(PEER_BUF, |old(peer.unread)|)) && |peer.taken| == |old(peer.taken)| + n
      ensures ok <==> n == 0 || !turn.fails || turn.written >= n
      ensures lastActivity == if n > 0 then turn.now else old(lastActivity)
    {
      var buf := new byte[PEER_BUF];
      n := peer.Take(buf, turn.arrived);
      ok := true;
      if n > 0 {
        lastActivity := turn.now;
        var written := lan.Give(buf[..n], if turn.fails then turn.written else n);
        ok := written == n;
      }
    }

    /** One turn of the loop: what it moves, and why it ends if it does. */
    method Step(turn: Turn) returns (r: Option<Reason>)
      requires Flowing()
      modifies this, held, peer, lan
      ensures Valid() && (r != Some(LanWriteFailed) ==> Flowing())
      ensures peer.taken + peer.unread == old(peer.taken + peer.unread)
      ensures lan.taken + lan.unread == old(lan.taken + lan.unread)
      ensures var came := if turn.active then Min(turn.arrived, Min(PEER_BUF, |old(peer.unread)|)) else 0;
              var waited := if came > 0 then 0 else turn.now - old(lastActivity);
              && |peer.taken| == |old(peer.taken)| + came
              && r == Ending(turn, came, |peer.unread|, old(heard), waited, old(Pending()) != [], |old(lan.unread)|)
      ensures r.Some? && Lossless(r.value) ==> Pending() == []
      ensures r == Some(LanSilent) ==> lan.taken == []
      ensures r == Some(LanClosed) ==> lan.unread == []
      ensures lastActivity == if |peer.taken| + |lan.taken| > |old(peer.taken)| + |old(lan.taken)|
                              then turn.now else old(lastActivity)
      // What is held goes out before anything more is read.
      ensures lan.taken == old(lan.taken) + if r.None? && old(Pending()) == [] then Pending() else []
      ensures Pending() == (if r.Some? then old(Pending())
                            else if old(Pending()) != [] then old(Pending())[Min(turn.room, |old(Pending())|)..]
                            else if turn.read.Offered?
                            then old(lan.unread)[..Min(turn.read.len, Min(HELD, |old(lan.unread)|))]
                            else [])
    {
      hide Splice.Valid;
      InBounds();
      if !turn.active {
        return Some(SocketInactive);
      }
      ghost var pending := Pending();
      var n, ok := Forward(turn);
      InBounds();
      if turn.finished && |peer.unread| == 0 && n == 0 {
        return Some(ClientFinished);
      }
      if !ok {
        return Some(LanWriteFailed);
      }
      var waited := turn.now - lastActivity;
      if !heard && waited > LAN_PATIENCE {
        return Some(LanSilent);
      }
      if waited > IDLE_LIMIT {
        return Some(IdleTooLong);
      }
      if start < end {
        Drain(turn.room);
        return None;
      }
      match turn.read
      case Nothing => r := None;
      case Failed => r := Some(LanError);
      case Closed => r := if |lan.unread| == 0 then Some(LanClosed) else None;
      case Offered(len) =>
        Fill(turn.now, len);
        r := None;
    }

    /** What has been read is what was given and what is held. */
    lemma Account()
      requires Valid() || Flowing()
      ensures Valid() && start <= end <= held.Length && peer != lan
      ensures lan.taken == peer.given + Pending() && (Pending() == [] <==> start == end)
      ensures peer.given == lan.taken <==> start == end
      ensures Flowing() ==> lan.given == peer.taken
    {
    }

    lemma InBounds()
      requires Valid()
      ensures held.Length == HELD && start <= end <= HELD && peer != lan && (heard <==> lan.taken != [])
    {
    }
  }

  /** Whatever arrives when, and however little each side accepts at a time: no byte is
      lost, repeated or reordered in either direction, except what is still held when the
      loop ends and what a failed write left behind. */
  method Run(peer: Stream, lan: Stream, start: nat, turns: seq<Turn>) returns (r: Option<Reason>, splice: Splice)
    requires peer != lan && peer.taken == peer.given == lan.taken == lan.given == []
    modifies peer, lan
    ensures fresh(splice) && splice.peer == peer && splice.lan == lan && splice.Valid()
    ensures peer.taken + peer.unread == old(peer.unread) && lan.taken + lan.unread == old(lan.unread)
    ensures r != Some(LanWriteFailed) ==> splice.Flowing()
    ensures r == Some(ClientFinished) ==> lan.given == old(peer.unread)
    ensures r.Some? && Lossless(r.value) ==> peer.given == lan.taken
    ensures r == Some(LanClosed) ==> peer.given == old(lan.unread)
    ensures r == Some(LanSilent) ==> peer.given == []
    ensures peer.given == lan.taken <==> splice.start == splice.end
  {
    hide Splice.Valid, Splice.Flowing, Splice.Pending;
    splice := new Splice(peer, lan, start);
    r := None;
    for i := 0 to |turns|
      invariant r.None? && splice.peer == peer && splice.lan == lan && splice.Flowing()
      invariant fresh(splice) && fresh(splice.held)
      invariant peer.taken + peer.unread == old(peer.unread) && lan.taken + lan.unread == old(lan.unread)
    {
      splice.Account();
      r := splice.Step(turns[i]);
      if r.Some? {
        splice.Account();
        return;
      }
    }
    splice.Account();
  }

  /** The endings above are the only ones that promise it: with any other, a byte taken
      from the LAN may never reach the peer. */
  method TailIsLost(reason: Reason) returns (r: Option<Reason>, peer: Stream, lan: Stream)
    requires !Lossless(reason)
    ensures r == Some(reason) && lan.taken == [7] && peer.given == []
  {
    var busy := reason == LanWriteFailed;
    peer := new Stream(if busy then [1] else []);
    lan := new Stream([7]);
    var splice := new Splice(peer, lan, 0);
    r := splice.Step(Turn(0, true, 0, false, 0, false, 0, Offered(1)));
    var late := if reason == IdleTooLong then IDLE_LIMIT + 1 else 0;
    r := splice.Step(Turn(late, reason != SocketInactive, if busy then 1 else 0, reason == ClientFinished, 0, busy, 0, Nothing));
  }

  /** Each ending with all that must hold for it, times in milliseconds: the first cause in
      the order listed decides. */
  lemma EndingsByCause(t: Turn, came: nat, peerLeft: nat, heard: bool, waited: int, holding: bool, lanLeft: nat)
    ensures var r := Ending(t, came, peerLeft, heard, waited, holding, lanLeft);
            var done := t.finished && came + peerLeft == 0;
            var broken := t.fails && t.written < came;
            var silent := !heard && waited > 6_000;
            var going := t.active && !done && !broken && !silent && waited <= 900_000;
            && (r == Some(SocketInactive) <==> !t.active)
            && (r == Some(ClientFinished) <==> t.active && done)
            && (r == Some(LanWriteFailed) <==> t.active && !done && broken)
            && (r == Some(LanSilent) <==> t.active && !done && !broken && silent)
            && (r == Some(IdleTooLong) <==> t.active && !done && !broken && !silent && waited > 900_000)
            && (r == Some(LanError) <==> going && !holding && t.read == Failed)
            && (r == Some(LanClosed) <==> going && !holding && t.read == Closed && lanLeft == 0)
            && (r == None <==> going && (holding || !(t.read == Failed || (t.read == Closed && lanLeft == 0))))
  {
  }

  /** A LAN host that answers and then closes or fails: the whole answer, however long,
      reaches a peer that takes some of it at every turn, and then the relay ends for that
      reason. */
  method AnswerIsDelivered(answer: bytes, room: nat, piece: nat, last: LanRead)
    returns (r: Option<Reason>, peer: Stream, lan: Stream)
    requires room > 0 && piece > 0 && (last == Closed || last == Failed)
    ensures r == Some(if last == Closed then LanClosed else LanError)
    ensures peer.given == lan.taken == answer
  {
    hide Splice.Valid, Splice.Flowing, Splice.Pending;
    peer := new Stream([]);
    lan := new Stream(answer);
    var splice := new Splice(peer, lan, 0);
    splice.Account();
    while lan.unread != [] || splice.start < splice.end
      invariant splice.peer == peer && splice.lan == lan && splice.Flowing() && splice.Valid()
      invariant fresh(splice) && fresh(splice.held) && splice.lastActivity == 0
      invariant peer.unread == [] && lan.taken + lan.unread == answer
      invariant splice.start <= splice.end <= splice.held.Length
      invariant splice.Pending() == [] <==> splice.start == splice.end
      decreases 2 * |lan.unread| + |splice.Pending()|
    {
      r := splice.Step(Turn(0, true, 0, false, 0, false, room, Offered(piece)));
      splice.Account();
    }
    r := splice.Step(Turn(0, true, 0, false, 0, false, room, last));
    splice.Account();
  }

  /** With nobody saying anything the relay waits six seconds for the first byte from the
      LAN, and after that byte a quarter of an hour. */
  method SilenceEnds(heard: bool, waited: nat) returns (r: Option<Reason>)
    ensures r == if !heard && waited > 6_000 then Some(LanSilent)
                 else if waited > 900_000 then Some(IdleTooLong) else None
  {
    var peer := new Stream([]);
    var lan := new Stream([7]);
    var splice := new Splice(peer, lan, 0);
    if heard {
      r := splice.Step(Turn(0, true, 0, false, 0, false, 0, Offered(1)));
      r := splice.Step(Turn(0, true, 0, false, 0, false, 1, Nothing));
    }
    r := splice.Step(Turn(waited, true, 0, false, 0, false, 0, Nothing));
  }
}
