/** The tunnel's pool of listening sockets, shared by workers that take turns at its lock. */
module Tunnel {
  import opened Bytes

  const WORKERS: nat := 8
  const MAX_LISTENERS: nat := 19

  datatype Endpoint = Endpoint(addr: bytes, port: nat)

  /** What the tunnel can see of a socket. */
  datatype Socket = Socket(mayRecv: bool, maySend: bool, local: Option<Endpoint>)

  predicate Servable(s: Socket) {
    (s.mayRecv || s.maySend) && s.local.Some?
  }

  datatype Listener = Listener(handle: nat, port: nat)

  datatype Claim = Claim(slot: nat, handle: nat, dst: Endpoint)

  class Tunnel {
    const listeners: seq<Listener>
    const claimed: array<bool>

    ghost predicate Valid()
      reads claimed
    {
      && claimed.Length == MAX_LISTENERS && |listeners| <= MAX_LISTENERS
      && forall i, j :: 0 <= i < j < |listeners| ==> listeners[i].handle != listeners[j].handle
    }

    constructor (listeners: seq<Listener>)
      requires |listeners| <= MAX_LISTENERS
      requires forall i, j :: 0 <= i < j < |listeners| ==> listeners[i].handle != listeners[j].handle
      ensures Valid() && this.listeners == listeners && fresh(claimed)
      ensures forall i :: 0 <= i < MAX_LISTENERS ==> !claimed[i]
    {
      this.listeners := listeners;
      claimed := new bool[MAX_LISTENERS](_ => false);
    }

    ghost predicate Free(sockets: seq<Socket>, i: int)
      reads claimed
      requires Valid() && |sockets| == |listeners| && 0 <= i < |listeners|
    {
      !claimed[i] && Servable(sockets[i])
    }

    /** Claims the first socket with a connection that nobody serves yet. */
    method ClaimOne(sockets: seq<Socket>) returns (r: Option<Claim>)
      requires Valid() && |sockets| == |listeners|
      modifies claimed
      ensures Valid()
      ensures r.None? <==> forall i :: 0 <= i < |listeners| ==> !old(Free(sockets, i))
      ensures r.None? <==>
              forall i :: 0 <= i < |listeners| ==>
                old(claimed[i]) || sockets[i].local.None? || !(sockets[i].mayRecv || sockets[i].maySend)
      ensures r.None? ==> claimed[..] == old(claimed[..])
      ensures r.Some? ==>
                var c := r.value;
                && c.slot < |listeners| && old(Free(sockets, c.slot))
                && (forall i :: 0 <= i < c.slot ==> !old(Free(sockets, i)))
                && c.handle == listeners[c.slot].handle && sockets[c.slot].local == Some(c.dst)
                && (sockets[c.slot].mayRecv || sockets[c.slot].maySend)
                && claimed[..] == old(claimed[..])[c.slot := true]
    {
      for i := 0 to |listeners|
        invariant forall k :: 0 <= k < i ==> !Free(sockets, k)
      {
        if claimed[i] {
          continue;
        }
        var socket := sockets[i];
        if !socket.mayRecv && !socket.maySend {
          continue;
        }
        if socket.local.None? {
          continue;
        }
        assert old(Free(sockets, i));
        claimed[i] := true;
        return Some(Claim(i, listeners[i].handle, socket.local.value));
      }
      r := None;
      forall i | 0 <= i < |listeners|
        ensures claimed[i] || sockets[i].local.None? || !(sockets[i].mayRecv || sockets[i].maySend)
      {
        assert !Free(sockets, i);
      }
    }

    /** Returns a slot to service; whether its socket listens again is up to the stack. */
    method Relisten(slot: nat, listens: bool) returns (ok: bool)
      requires Valid() && slot < |listeners|
      modifies claimed
      ensures Valid() && ok == listens && claimed[..] == old(claimed[..])[slot := false]
    {
      ok := listens;
      claimed[slot] := false;
    }
  }

  // ---------------------------------------------------------------- the workers

  datatype Worker = Idle | Serving(claim: Claim)

  /** One turn of a worker at the lock: what the sockets look like, and whether the one it
      gives back, if any, listens again. */
  datatype Turn = Turn(worker: nat, sockets: seq<Socket>, listens: bool)

  /** A slot is claimed exactly while one worker, and one only, serves it. */
  ghost predicate Exclusive(listeners: seq<Listener>, claimed: seq<bool>, workers: seq<Worker>) {
    && (forall w :: 0 <= w < |workers| && workers[w].Serving? ==>
          var c := workers[w].claim;
          c.slot < |listeners| && c.slot < |claimed| && claimed[c.slot] && c.handle == listeners[c.slot].handle)
    && (forall i :: 0 <= i < |claimed| && claimed[i] ==>
          exists w :: 0 <= w < |workers| && workers[w].Serving? && workers[w].claim.slot == i)
    && (forall v, w :: 0 <= v < w < |workers| && workers[v].Serving? && workers[w].Serving? ==>
          workers[v].claim.slot != workers[w].claim.slot)
  }

  /** No two workers splice the same connection. */
  lemma NoSharedConnection(tunnel: Tunnel, workers: seq<Worker>, v: nat, w: nat)
    requires tunnel.Valid() && Exclusive(tunnel.listeners, tunnel.claimed[..], workers)
    requires v < w < |workers| && workers[v].Serving? && workers[w].Serving?
    ensures workers[v].claim.handle != workers[w].claim.handle
  {
  }

  lemma ClaimKeepsExclusive(listeners: seq<Listener>, claimed: seq<bool>, workers: seq<Worker>, w: nat, c: Claim)
    requires Exclusive(listeners, claimed, workers) && w < |workers| && workers[w].Idle?
    requires c.slot < |listeners| && c.slot < |claimed| && !claimed[c.slot] && c.handle == listeners[c.slot].handle
    ensures Exclusive(listeners, claimed[c.slot := true], workers[w := Serving(c)])
  {
    var after, now := workers[w := Serving(c)], claimed[c.slot := true];
    forall i | 0 <= i < |now| && now[i]
      ensures exists v :: 0 <= v < |after| && after[v].Serving? && after[v].claim.slot == i
    {
      if i == c.slot {
        assert after[w].Serving?;
      } else {
        var v :| 0 <= v < |workers| && workers[v].Serving? && workers[v].claim.slot == i;
        assert after[v].Serving?;
      }
    }
  }

  lemma ReleaseKeepsExclusive(listeners: seq<Listener>, claimed: seq<bool>, workers: seq<Worker>, w: nat)
    requires Exclusive(listeners, claimed, workers) && w < |workers| && workers[w].Serving?
    ensures Exclusive(listeners, claimed[workers[w].claim.slot := false], workers[w := Idle])
  {
    var after, now := workers[w := Idle], claimed[workers[w].claim.slot := false];
    forall i | 0 <= i < |now| && now[i]
      ensures exists v :: 0 <= v < |after| && after[v].Serving? && after[v].claim.slot == i
    {
      var v :| 0 <= v < |workers| && workers[v].Serving? && workers[v].claim.slot == i;
      assert after[v].Serving?;
    }
  }

  function SlotsOf(workers: seq<Worker>): (slots: set<nat>)
    ensures |slots| <= |workers|
    ensures forall w :: 0 <= w < |workers| && workers[w].Serving? ==> workers[w].claim.slot in slots
  {
    if workers == [] then {}
    else
      var n := |workers| - 1;
      SlotsOf(workers[..n]) + if workers[n].Serving? then {workers[n].claim.slot} else {}
  }

  /** Listeners beyond the number of workers always stay in service. */
  lemma ClaimedAtMostWorkers(listeners: seq<Listener>, claimed: seq<bool>, workers: seq<Worker>)
    requires Exclusive(listeners, claimed, workers)
    ensures |set i | 0 <= i < |claimed| && claimed[i]| <= |workers|
  {
    var slots := set i | 0 <= i < |claimed| && claimed[i];
    assert slots <= SlotsOf(workers);
    Subset(slots, SlotsOf(workers));
  }

  lemma {:induction false} Subset(a: set<int>, b: set<nat>)
    requires a <= b
    ensures |a| <= |b|
    decreases a
  {
    if a != {} {
      var x :| x in a;
      Subset(a - {x}, b - {x});
    }
  }

  /** One turn of one worker. */
  method TakeTurn(tunnel: Tunnel, workers: seq<Worker>, turn: Turn) returns (after: seq<Worker>)
    requires tunnel.Valid() && Exclusive(tunnel.listeners, tunnel.claimed[..], workers)
    requires turn.worker < |workers| && |turn.sockets| == |tunnel.listeners|
    modifies tunnel.claimed
    ensures tunnel.Valid() && Exclusive(tunnel.listeners, tunnel.claimed[..], after) && |after| == |workers|
    ensures forall w :: 0 <= w < |workers| && w != turn.worker ==> after[w] == workers[w]
    ensures workers[turn.worker].Serving? ==> after[turn.worker] == Idle
    ensures workers[turn.worker].Idle? ==>
              (after[turn.worker].Serving? <==>
               exists i :: 0 <= i < |tunnel.listeners| && old(tunnel.Free(turn.sockets, i)))
  {
    hide Exclusive;
    InUse(tunnel.listeners, tunnel.claimed[..], workers);
    match workers[turn.worker]
    case Idle =>
      var claim := tunnel.ClaimOne(turn.sockets);
      if claim.None? {
        return workers;
      }
      after := workers[turn.worker := Serving(claim.value)];
      ClaimKeepsExclusive(tunnel.listeners, old(tunnel.claimed[..]), workers, turn.worker, claim.value);
    case Serving(claim) =>
      var _ := tunnel.Relisten(claim.slot, turn.listens);
      after := workers[turn.worker := Idle];
      ReleaseKeepsExclusive(tunnel.listeners, old(tunnel.claimed[..]), workers, turn.worker);
  }

  lemma InUse(listeners: seq<Listener>, claimed: seq<bool>, workers: seq<Worker>)
    requires Exclusive(listeners, claimed, workers)
    ensures forall w :: 0 <= w < |workers| && workers[w].Serving? ==> workers[w].claim.slot < |listeners|
  {
  }

  /** Any interleaving of the eight workers keeps every slot with at most one of them. */
  method Run(tunnel: Tunnel, turns: seq<Turn>) returns (workers: seq<Worker>)
    requires tunnel.Valid() && forall i :: 0 <= i < MAX_LISTENERS ==> !tunnel.claimed[i]
    requires forall n :: 0 <= n < |turns| ==> turns[n].worker < WORKERS && |turns[n].sockets| == |tunnel.listeners|
    modifies tunnel.claimed
    ensures tunnel.Valid() && |workers| == WORKERS && Exclusive(tunnel.listeners, tunnel.claimed[..], workers)
  {
    workers := seq(WORKERS, _ => Idle);
    for n := 0 to |turns|
      invariant tunnel.Valid() && |workers| == WORKERS && Exclusive(tunnel.listeners, tunnel.claimed[..], workers)
    {
      workers := TakeTurn(tunnel, workers, turns[n]);
    }
  }
}
