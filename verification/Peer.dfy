/** A WireGuard peer's session lifecycle and timers. */
module Peer {
  import opened Bytes
  import opened Crypto
  import opened Replay
  import opened Transport
  import opened HandshakeSpec
  import opened Tai64n

  /** Monotonic milliseconds. */
  type instant = u64

  const REKEY_AFTER_TIME: nat := 120_000
  const REJECT_AFTER_TIME: nat := 180_000
  const REKEY_TIMEOUT: nat := 5_000
  const REKEY_ATTEMPT_TIME: nat := 90_000
  const KEEPALIVE_TIMEOUT: nat := 10_000
  const REKEY_AFTER_MESSAGES: nat := 0x1000_0000_0000_0000

  datatype Action = Idle | Initiate | Keepalive

  function Since(now: instant, then_: instant): nat {
    if now < then_ then 0 else now - then_
  }

  datatype Active = Active(
    session: Session, established: instant, lastSent: Option<instant>, lastReceived: Option<instant>, initiator: bool)
  {
    predicate Expired(now: instant) {
      Since(now, established) >= REJECT_AFTER_TIME
    }

    predicate DueForRekey(now: instant)
      reads session`sendCounter
    {
      initiator && (Since(now, established) >= REKEY_AFTER_TIME || session.sendCounter >= REKEY_AFTER_MESSAGES)
    }

    /** Data arrived after anything we sent, long enough ago to deserve an answer. */
    predicate OwesKeepalive(now: instant) {
      && lastReceived.Some?
      && !(lastSent.Some? && lastSent.value >= lastReceived.value)
      && Since(now, lastReceived.value) >= KEEPALIVE_TIMEOUT
    }
  }

  /** One call of `install_session`. */
  datatype Install = Install(session: Session, at: instant)

  ghost predicate InOrder(installs: seq<Install>) {
    forall i, j :: 0 <= i < j < |installs| ==> installs[i].at <= installs[j].at
  }

  ghost predicate Increasing(times: seq<timestamp>) {
    forall i, j :: 0 <= i < j < |times| ==> FromBe(times[i]) < FromBe(times[j])
  }

  class Peer {
    const staticPublic: publicKey
    var current: Option<Active>
    var previous: Option<Active>
    var lastHandshakeTimestamp: Option<timestamp>
    var handshakeSent: Option<instant>
    var handshakeStarted: Option<instant>

    /** Every session ever installed. */
    ghost var installs: seq<Install>
    /** When initiations were sent since the last install. */
    ghost var attempts: seq<instant>
    /** Every handshake timestamp accepted. */
    ghost var accepted: seq<timestamp>

    /** `slot` still holds the install of that number, or was emptied. */
    ghost predicate Holds(slot: Option<Active>, number: int)
      reads `installs
    {
      slot.Some? ==> 0 <= number < |installs| && Install(slot.value.session, slot.value.established) == installs[number]
    }

    ghost predicate Valid()
      reads this
    {
      && Holds(current, |installs| - 1)
      && Holds(previous, |installs| - 2)
      && (InOrder(installs) ==> previous.Some? ==> current.Some?)
      && handshakeSent == (if attempts == [] then None else Some(attempts[|attempts| - 1]))
      && handshakeStarted == (if attempts == [] then None else Some(attempts[0]))
      && lastHandshakeTimestamp == (if accepted == [] then None else Some(accepted[|accepted| - 1]))
      && Increasing(accepted)
    }

    constructor (staticPublic: publicKey)
      ensures Valid() && this.staticPublic == staticPublic
      ensures installs == [] && attempts == [] && accepted == [] && current.None?
    {
      this.staticPublic := staticPublic;
      current, previous := None, None;
      lastHandshakeTimestamp, handshakeSent, handshakeStarted := None, None, None;
      installs, attempts, accepted := [], [], [];
    }

    /** Accepts a handshake timestamp only if it is later than every one accepted before. */
    method AcceptHandshakeTimestamp(t: timestamp) returns (r: Result<(), WgError>)
      requires Valid()
      modifies `lastHandshakeTimestamp, `accepted
      ensures Valid()
      ensures r == if forall k :: 0 <= k < |old(accepted)| ==> FromBe(old(accepted)[k]) < FromBe(t) then Ok(())
                   else Err(ReplayedHandshake)
      ensures accepted == if r.Ok? then old(accepted) + [t] else old(accepted)
    {
      if lastHandshakeTimestamp.Some? {
        OrderIsNumeric(lastHandshakeTimestamp.value, t);
        if !IsNewerThan(t, lastHandshakeTimestamp.value) {
          return Err(ReplayedHandshake);
        }
      }
      lastHandshakeTimestamp := Some(t);
      accepted := accepted + [t];
      r := Ok(());
    }

    /** The last attempt is now; the first one of a run stays the first. */
    method HandshakeSent(now: instant)
      requires Valid()
      modifies `handshakeSent, `handshakeStarted, `attempts
      ensures Valid() && attempts == old(attempts) + [now]
    {
      handshakeSent := Some(now);
      if handshakeStarted.None? {
        handshakeStarted := Some(now);
      }
      attempts := attempts + [now];
    }

    /** A fresh session becomes the current one, the current one the previous, and the run of
        attempts is over. */
    method InstallSession(aead: Aead, keys: SessionKeys, now: instant, initiator: bool)
      requires Valid() && aead.Correct()
      modifies `current, `previous, `handshakeSent, `handshakeStarted, `installs, `attempts
      ensures Valid() && attempts == []
      ensures previous == old(current)
      ensures current.Some? && current.value.initiator == initiator
      ensures current.value.lastSent == current.value.lastReceived == None
      ensures var session := current.value.session;
              && installs == old(installs) + [Install(session, now)]
              && fresh(session) && fresh(session.replay) && fresh(session.replay.bits)
              && session.keys == keys && session.Valid()
    {
      hide Session.Valid, Increasing, InOrder, ReplayWindow.Valid;
      previous := current;
      var session := new Session(aead, keys);
      current := Some(Active(session, now, None, None, initiator));
      handshakeSent, handshakeStarted := None, None;
      installs, attempts := installs + [Install(session, now)], [];
    }

    /** The session to send with: only ever the latest installed, less than 180 s old. */
    method SendSession(now: instant) returns (r: Option<Session>)
      requires Valid()
      modifies `current
      ensures Valid()
      ensures r.Some? <==>
              && old(current).Some?
              && now < old(current).value.established + REJECT_AFTER_TIME
              && old(current).value.session.sendCounter < REJECT_AFTER_MESSAGES
      ensures r.Some? ==> Proper(installs, Sent(r.value, now))
      ensures current == if r.Some? then Some(old(current).value.(lastSent := Some(now))) else old(current)
    {
      if current.None? {
        return None;
      }
      var active := current.value;
      if active.Expired(now) || active.session.sendCounter >= REJECT_AFTER_MESSAGES {
        return None;
      }
      current := Some(active.(lastSent := Some(now)));
      r := Some(active.session);
    }

    /** The session an index belongs to: one of the last two installed, less than 180 s old,
        the newer first. */
    method SessionForIndex(index: u32, now: instant) returns (r: Option<Session>)
      requires Valid()
      modifies `current, `previous
      ensures Valid()
      ensures r == if Answers(old(current), index, now) then Some(old(current).value.session)
                   else if Answers(old(previous), index, now) then Some(old(previous).value.session)
                   else None
      ensures r.Some? ==> Proper(installs, Received(r.value, now)) && r.value.keys.localIndex == index
      ensures current == if Answers(old(current), index, now) then Touched(old(current), now) else old(current)
      ensures previous == if !Answers(old(current), index, now) && Answers(old(previous), index, now)
                          then Touched(old(previous), now) else old(previous)
    {
      if current.Some? {
        if current.value.session.keys.localIndex == index && !current.value.Expired(now) {
          current := Some(current.value.(lastReceived := Some(now)));
          assert Usable(installs, |installs| - 1, current.value.session, now);
          return Some(current.value.session);
        }
      }
      if previous.Some? {
        if previous.value.session.keys.localIndex == index && !previous.value.Expired(now) {
          previous := Some(previous.value.(lastReceived := Some(now)));
          assert Usable(installs, |installs| - 2, previous.value.session, now);
          return Some(previous.value.session);
        }
      }
      r := None;
    }

    /** Afterwards no session kept is too old, and none that was young enough is gone. */
    method Expire(now: instant)
      requires Valid()
      modifies `current, `previous
      ensures Valid()
      ensures current == if Live(old(current), now) then old(current) else None
      ensures previous == if Live(old(previous), now) then old(previous) else None
    {
      if current.Some? && current.value.Expired(now) {
        current := None;
      }
      if previous.Some? && previous.value.Expired(now) {
        previous := None;
      }
    }

    predicate HasSession(now: instant)
      reads `current
    {
      current.Some? && !current.value.Expired(now)
    }

    ghost function SessionSet(): set<object>
      reads `current
    {
      if current.Some? then {current.value.session} else {}
    }

    /** While attempts run, an initiation is due once five seconds have passed since the last
        and none is once ninety have since the first. */
    function Poll(now: instant): (r: Action)
      requires Valid()
      reads this, SessionSet()
      ensures attempts != [] ==>
                (r == if now >= attempts[|attempts| - 1] + REKEY_TIMEOUT && Since(now, attempts[0]) < REKEY_ATTEMPT_TIME
                      then Initiate else Idle)
      ensures attempts == [] ==> (r == Initiate <==> !HasSession(now) || current.value.DueForRekey(now))
      ensures r == Keepalive <==>
                attempts == [] && HasSession(now) && !current.value.DueForRekey(now) && current.value.OwesKeepalive(now)
    {
      if handshakeSent.Some? then
        if handshakeStarted.Some? && Since(now, handshakeStarted.value) >= REKEY_ATTEMPT_TIME then Idle
        else if Since(now, handshakeSent.value) >= REKEY_TIMEOUT then Initiate
        else Idle
      else if current.None? || current.value.Expired(now) || current.value.DueForRekey(now) then Initiate
      else if current.value.OwesKeepalive(now) then Keepalive
      else Idle
    }

    /** If sessions were installed in time order, a usable previous session means a usable
        current one. */
    lemma LivePreviousMeansLiveCurrent(now: instant)
      requires Valid() && InOrder(installs) && Live(previous, now)
      ensures Live(current, now)
    {
    }
  }

  /** A slot whose session may still be used. */
  predicate Live(slot: Option<Active>, now: instant) {
    slot.Some? && now < slot.value.established + REJECT_AFTER_TIME
  }

  predicate Answers(slot: Option<Active>, index: u32, now: instant) {
    Live(slot, now) && slot.value.session.keys.localIndex == index
  }

  function Touched(slot: Option<Active>, now: instant): Option<Active>
    requires slot.Some?
  {
    Some(slot.value.(lastReceived := Some(now)))
  }

  // ---------------------------------------------------------------- the timers by the clock

  /** What a peer asks for, from what it holds alone. Times are in milliseconds. */
  lemma PollByClock(peer: Peer, now: instant)
    requires peer.Valid()
    ensures peer.attempts != [] ==>
              peer.Poll(now) == if now < peer.attempts[0] as int + 90_000
                                  && now >= peer.attempts[|peer.attempts| - 1] as int + 5_000
                                then Initiate else Idle
    ensures peer.attempts == [] && peer.current.None? ==> peer.Poll(now) == Initiate
    ensures peer.attempts == [] && peer.current.Some? ==>
              var active := peer.current.value;
              var expired := now >= active.established as int + 180_000;
              var due := active.initiator
                && (now >= active.established as int + 120_000 || active.session.sendCounter >= 1152921504606846976);
              var owing := exists t: instant ::
                && active.lastReceived == Some(t) && now >= t as int + 10_000
                && (active.lastSent.Some? ==> active.lastSent.value < t);
              peer.Poll(now) == if expired || due then Initiate else if owing then Keepalive else Idle
  {
    if peer.current.Some? && peer.current.value.lastReceived.Some? {
      var t := peer.current.value.lastReceived.value;
      assert peer.current.value.lastReceived == Some(t);
    }
  }

  /** What arrives on the current session later than anything sent is owed a keepalive ten
      seconds after, for as long as the session is neither due for renewal nor expired. */
  method ArrivalOwesKeepalive(peer: Peer, index: u32, at: instant, later: instant)
    requires peer.Valid() && peer.attempts == []
    requires peer.current.Some? && peer.current.value.session.keys.localIndex == index
    requires at < peer.current.value.established as int + 180_000
    requires peer.current.value.lastSent.Some? ==> peer.current.value.lastSent.value < at
    modifies peer
    ensures peer.Valid() && peer.current.Some? && peer.current.value.session == old(peer.current.value.session)
    ensures var active := peer.current.value;
            peer.Poll(later) == Keepalive <==>
              && at as int + 10_000 <= later < active.established as int + 180_000
              && !(active.initiator && (later >= active.established as int + 120_000
                                        || active.session.sendCounter >= 1152921504606846976))
  {
    hide InOrder, Increasing;
    var session := peer.SessionForIndex(index, at);
  }

  /** Once something was sent, whatever arrived before it is owed nothing. */
  method SendingPaysKeepalive(peer: Peer, at: instant, later: instant) returns (session: Option<Session>)
    requires peer.Valid()
    requires peer.current.Some? && peer.current.value.lastReceived.Some? ==> peer.current.value.lastReceived.value <= at
    modifies peer
    ensures peer.Valid()
    ensures session.Some? ==> peer.Poll(later) != Keepalive
  {
    hide InOrder, Increasing;
    session := peer.SendSession(at);
  }

  /** Which sessions count as usable, by the clock: to send, the last one installed; to
      receive, that one or the one before. */
  lemma UsableByClock(installs: seq<Install>, now: instant, session: Session)
    ensures var n := |installs|;
            var last := n >= 1 && installs[n - 1].session == session && now < installs[n - 1].at as int + 180_000;
            var former := n >= 2 && installs[n - 2].session == session && now < installs[n - 2].at as int + 180_000;
            && (Proper(installs, Sent(session, now)) <==> last)
            && (Proper(installs, Received(session, now)) <==> last || former)
  {
    var n := |installs|;
    if n >= 1 && Usable(installs, n - 1, session, now) {
      assert Proper(installs, Received(session, now));
    }
    if n >= 2 && Usable(installs, n - 2, session, now) {
      assert Proper(installs, Received(session, now));
    }
  }

  // ---------------------------------------------------------------- bounded attempts

  const MAX_ATTEMPTS: nat := 18

  /** Initiations at least five seconds apart, all within ninety seconds of the first. */
  ghost predicate Paced(times: seq<instant>) {
    forall i :: 0 < i < |times| ==> times[i - 1] + REKEY_TIMEOUT <= times[i] < times[0] + REKEY_ATTEMPT_TIME
  }

  lemma {:induction false} PacedSpan(times: seq<instant>, n: nat)
    requires Paced(times) && n < |times|
    ensures times[0] + n * REKEY_TIMEOUT <= times[n]
  {
    if n > 0 {
      PacedSpan(times, n - 1);
    }
  }

  lemma PacedIsBounded(times: seq<instant>)
    requires Paced(times)
    ensures |times| <= MAX_ATTEMPTS
  {
    if times != [] {
      PacedSpan(times, |times| - 1);
    }
  }

  /** The bound is met: eighteen attempts are possible. */
  lemma EighteenArePossible() returns (times: seq<instant>)
    ensures Paced(times) && |times| == MAX_ATTEMPTS
  {
    times := seq(MAX_ATTEMPTS, i requires 0 <= i < MAX_ATTEMPTS => i * REKEY_TIMEOUT);
  }

  /** Initiating only when told to keeps attempts paced, whatever the clock does. */
  lemma ObedientIsPaced(peer: Peer, now: instant)
    requires peer.Valid() && Paced(peer.attempts) && peer.Poll(now) == Initiate
    ensures Paced(peer.attempts + [now])
  {
  }

  /** An abandoned attempt stays abandoned: nothing but an install changes the answer. */
  lemma AbandonedStaysIdle(peer: Peer, now: instant, later: instant)
    requires peer.Valid() && peer.attempts != []
    requires now >= peer.attempts[0] + REKEY_ATTEMPT_TIME && later >= now
    ensures peer.Poll(later) == Idle
  {
  }

  // ---------------------------------------------------------------- whole runs

  datatype Event =
    | Tick(now: instant)
    | Agreed(keys: SessionKeys, now: instant, initiator: bool)
    | Traffic(now: instant, payload: bytes)
    | Arrived(index: u32, now: instant)
    | Sweep(now: instant)
    | Greeted(time: timestamp)

  /** What a caller saw happen. */
  datatype Outcome =
    | Nothing
    | Began(now: instant)
    | Renewed(install: Install)
    | Sent(session: Session, now: instant)
    | Received(session: Session, now: instant)
    | Trusted(time: timestamp)

  /** A session in use is one of the last two installed and less than 180 s old; sending
      uses the last one only. */
  ghost predicate Proper(installs: seq<Install>, o: Outcome) {
    match o
    case Sent(session, now) =>
      installs != [] && Usable(installs, |installs| - 1, session, now)
    case Received(session, now) =>
      exists k :: |installs| - 2 <= k < |installs| && k >= 0 && Usable(installs, k, session, now)
    case _ => true
  }

  ghost predicate Usable(installs: seq<Install>, k: nat, session: Session, now: instant)
    requires k < |installs|
  {
    session == installs[k].session && now < installs[k].at + REJECT_AFTER_TIME
  }

  /** What a log says about a peer: sessions installed, initiations since the last of
      them, handshake timestamps accepted. */
  datatype History = History(installs: seq<Install>, attempts: seq<instant>, accepted: seq<timestamp>)

  ghost function Extend(h: History, o: Outcome): History {
    match o
    case Renewed(install) => h.(installs := h.installs + [install], attempts := [])
    case Began(now) => h.(attempts := h.attempts + [now])
    case Trusted(time) => h.(accepted := h.accepted + [time])
    case _ => h
  }

  ghost function Replayed(log: seq<Outcome>): History {
    if log == [] then History([], [], [])
    else Extend(Replayed(log[..|log| - 1]), log[|log| - 1])
  }

  /** The promises kept at every moment of a run. */
  ghost predicate Kept(log: seq<Outcome>) {
    forall n :: 0 <= n < |log| ==>
      var h := Replayed(log[..n]);
      && Proper(h.installs, log[n])
      && |Extend(h, log[n]).attempts| <= MAX_ATTEMPTS
      && Increasing(Extend(h, log[n]).accepted)
  }

  lemma ObedientStaysPaced(peer: Peer, now: instant)
    requires peer.Valid() && peer.Poll(now) == Initiate
    ensures Paced(peer.attempts) ==> Paced(peer.attempts + [now])
  {
  }

  lemma NothingIsPaced()
    ensures Paced([])
  {
  }

  ghost function Past(peer: Peer): History
    reads peer
  {
    History(peer.installs, peer.attempts, peer.accepted)
  }

  /** Encrypts on the sending session, if there is one. */
  method Transmit(peer: Peer, now: instant, payload: bytes) returns (o: Outcome)
    requires peer.Valid() && (peer.current.Some? ==> peer.current.value.session.Valid())
    modifies peer`current, peer.SessionSet()
    ensures peer.Valid() && (peer.current.Some? ==> peer.current.value.session.Valid())
    ensures peer.SessionSet() == old(peer.SessionSet())
    ensures o == Nothing || (o.Sent? && Proper(peer.installs, o))
  {
    hide Paced, InOrder, Increasing, Authentic, Packet, Acceptable, ReplayWindow.Valid;
    var session := peer.SendSession(now);
    if session.None? {
      return Nothing;
    }
    var out := new byte[HEADER_LEN + PaddedLen(|payload|) + TAG_LEN];
    var _ := session.value.Encrypt(payload, out);
    o := Sent(session.value, now);
  }

  /** A packet arrives for the session of an index. */
  method Route(peer: Peer, index: u32, now: instant) returns (o: Outcome)
    requires peer.Valid() && (peer.current.Some? ==> peer.current.value.session.Valid())
    modifies peer`current, peer`previous
    ensures peer.Valid() && (peer.current.Some? ==> peer.current.value.session.Valid())
    ensures peer.SessionSet() == old(peer.SessionSet())
    ensures o == Nothing || (o.Received? && Proper(peer.installs, o))
  {
    hide InOrder, Increasing, Session.Valid;
    var session := peer.SessionForIndex(index, now);
    o := if session.Some? then Received(session.value, now) else Nothing;
  }

  /** Old sessions are dropped. */
  method Clean(peer: Peer, now: instant)
    requires peer.Valid() && (peer.current.Some? ==> peer.current.value.session.Valid())
    modifies peer`current, peer`previous
    ensures peer.Valid() && (peer.current.Some? ==> peer.current.value.session.Valid())
    ensures peer.SessionSet() <= old(peer.SessionSet())
  {
    hide InOrder, Increasing, Session.Valid;
    peer.Expire(now);
  }

  /** Keys were agreed on. */
  method Renew(peer: Peer, aead: Aead, keys: SessionKeys, now: instant, initiator: bool) returns (o: Outcome)
    requires peer.Valid() && aead.Correct()
    modifies peer
    ensures peer.Valid() && peer.current.Some? && peer.current.value.session.Valid()
    ensures fresh(peer.SessionSet())
    ensures o.Renewed? && Past(peer) == Extend(old(Past(peer)), o) && peer.attempts == []
  {
    hide Session.Valid, Increasing, InOrder;
    peer.InstallSession(aead, keys, now, initiator);
    o := Renewed(Install(peer.current.value.session, now));
  }

  /** One event, handled by a caller that polls before initiating and encrypts what it
      sends. */
  method Handle(peer: Peer, aead: Aead, e: Event) returns (o: Outcome)
    requires peer.Valid() && aead.Correct()
    requires peer.current.Some? ==> peer.current.value.session.Valid()
    modifies peer, peer.SessionSet()
    ensures peer.Valid() && (peer.current.Some? ==> peer.current.value.session.Valid())
    ensures peer.SessionSet() <= old(peer.SessionSet()) || fresh(peer.SessionSet())
    ensures Proper(old(peer.installs), o)
    ensures old(Paced(peer.attempts)) ==> Paced(peer.attempts)
    ensures Past(peer) == Extend(old(Past(peer)), o)
  {
    hide Paced, Peer.Valid, Session.Valid, Usable;
    match e
    case Tick(now) =>
      var action := peer.Poll(now);
      if action == Initiate {
        ObedientStaysPaced(peer, now);
        peer.HandshakeSent(now);
        o := Began(now);
      } else {
        o := Nothing;
      }
    case Agreed(keys, now, initiator) =>
      NothingIsPaced();
      o := Renew(peer, aead, keys, now, initiator);
    case Traffic(now, payload) =>
      o := Transmit(peer, now, payload);
    case Arrived(index, now) =>
      o := Route(peer, index, now);
    case Sweep(now) =>
      Clean(peer, now);
      o := Nothing;
    case Greeted(time) =>
      var r := peer.AcceptHandshakeTimestamp(time);
      o := if r.Ok? then Trusted(time) else Nothing;
  }

  /** Any run, under any clock: never more than eighteen initiations between installs, no
      session used past its time or out of turn, accepted timestamps strictly increasing. */
  method Run(staticPublic: publicKey, aead: Aead, events: seq<Event>) returns (log: seq<Outcome>)
    requires aead.Correct()
    ensures |log| == |events| && Kept(log)
  {
    hide Paced, InOrder, Increasing, Session.Valid, Proper, Extend, Kept, Replayed;
    var peer := new Peer(staticPublic);
    log := [];
    NothingIsPaced();
    NothingIsKept();
    for n := 0 to |events|
      invariant fresh(peer) && fresh(peer.SessionSet())
      invariant peer.Valid() && (peer.current.Some? ==> peer.current.value.session.Valid())
      invariant |log| == n && Past(peer) == Replayed(log) && Paced(peer.attempts) && Kept(log)
    {
      var o := Handle(peer, aead, events[n]);
      PacedIsBounded(peer.attempts);
      AcceptedIncrease(peer);
      KeptSnoc(log, o);
      log := log + [o];
    }
  }

  lemma NothingIsKept()
    ensures Kept([]) && Replayed([]) == History([], [], [])
  {
  }

  lemma AcceptedIncrease(peer: Peer)
    requires peer.Valid()
    ensures Increasing(peer.accepted)
  {
  }

  /** One more outcome that is proper, and leaves what a history must. */
  lemma KeptSnoc(log: seq<Outcome>, o: Outcome)
    requires Kept(log) && Proper(Replayed(log).installs, o)
    requires var h := Extend(Replayed(log), o); |h.attempts| <= MAX_ATTEMPTS && Increasing(h.accepted)
    ensures Kept(log + [o]) && Replayed(log + [o]) == Extend(Replayed(log), o)
  {
    hide Proper, Extend, Replayed, Increasing;
    var longer := log + [o];
    ReplayedSnoc(log, o);
    forall k | 0 <= k < |longer| ensures longer[..k] == if k < |log| then log[..k] else log {
    }
  }

  lemma ReplayedSnoc(log: seq<Outcome>, o: Outcome)
    ensures Replayed(log + [o]) == Extend(Replayed(log), o)
  {
    assert (log + [o])[..|log|] == log;
  }
}
