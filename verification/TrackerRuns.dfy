/** What the tracker guarantees over any run of events. */
module TrackerRuns {
  import opened Wrappers
  import opened Tracker
  import opened TrackerInvariant
  import opened TrackerService

  ghost predicate Runs(c: Config, t: State, events: seq<Event>, u: State)
    decreases |events|
  {
    if events == [] then u == t
    else CanHappen(t, events[0]) && Runs(c, After(c, t, events[0]), events[1..], u)
  }

  lemma {:induction false} EveryRunKeepsInv(c: Config, t: State, events: seq<Event>, u: State)
    requires Inv(c, t) && Runs(c, t, events, u)
    ensures Inv(c, u)
    decreases |events|
  {
    hide Inv, CanHappen, After;
    if events != [] {
      EveryEventKeepsInv(c, t, events[0]);
      EveryRunKeepsInv(c, After(c, t, events[0]), events[1..], u);
    }
  }

  /** In every state the tracker can get into, the count of an address is the number of its live connections. */
  lemma CountsAreExact(c: Config, events: seq<Event>, t: State, a: string)
    requires Runs(c, Init(), events, t)
    ensures Count(t.perAddress, a) == |set ws | ws in t.connections && ws in t.conns && t.conns[ws].address == a|
    ensures Count(t.perAddress, a) <= c.maxConnectionsPerAddress
  {
    hide Runs, SessionsOk, EntryOk;
    InvAtFirst(c);
    EveryRunKeepsInv(c, Init(), events, t);
    assert LiveAt(t, a) == set ws | ws in t.connections && ws in t.conns && t.conns[ws].address == a;
  }

  /** And every session's socket is a live connection that carries the session's peer id. */
  lemma SessionsAreLive(c: Config, events: seq<Event>, t: State, p: string)
    requires Runs(c, Init(), events, t) && p in t.sessions
    ensures var ws := t.sessions[p].ws;
      && ws in t.connections && ws in t.conns && t.conns[ws].peerId == Some(p)
      && ws in t.sockets && t.sockets[ws] != Closed
    ensures |t.sessions| <= c.maxSessions
  {
    hide Runs, CountsOk;
    InvAtFirst(c);
    EveryRunKeepsInv(c, Init(), events, t);
    assert Carries(t, t.sessions[p].ws, p) && EntryOk(At(t, t.sessions[p].ws));
  }

  /** Conversely a connection that carries a peer id is that peer's session, as long as its socket is open. */
  lemma OpenConnectionsHaveSessions(c: Config, events: seq<Event>, t: State, ws: nat, p: string)
    requires Runs(c, Init(), events, t)
    requires ws in t.conns && ws in t.sockets && t.sockets[ws] == Open && t.conns[ws].peerId == Some(p)
    ensures p in t.sessions && t.sessions[p].ws == ws
  {
    hide Runs, CountsOk;
    InvAtFirst(c);
    EveryRunKeepsInv(c, Init(), events, t);
    assert OpenAs(t, ws, p);
  }

  /** A close event ends the sessions of that socket and no others: an old socket never takes the newer session along. */
  lemma CloseEndsOwnSessionsOnly(c: Config, t: State, ws: nat, p: string)
    requires Inv(c, t) && CanHappen(t, Close(ws))
    ensures var u := After(c, t, Close(ws));
      (p in u.sessions <==> p in t.sessions && t.sessions[p].ws != ws)
      && (p in u.sessions ==> u.sessions[p] == t.sessions[p])
  {
    hide At, CountsOk;
    assert p in t.sessions ==> Carries(t, t.sessions[p].ws, p);
  }

  /** Registering again from a new connection takes the session over, at whatever load, and the old one is closing. */
  lemma ReconnectTakesOver(c: Config, t: State, ws: nat, msg: Join, now: int)
    requires Inv(c, t) && ws in t.conns && ws in t.sockets && t.sockets[ws] == Open
    requires Screen(c, t.conns[ws], msg, true).Pass?
    requires msg.sig == Signature(t.conns[ws].nonce.value, msg.peerId, msg.host)
    requires msg.peerId in t.sessions
    ensures var u, prior := AfterJoin(c, t, ws, msg, true, now), t.sessions[msg.peerId].ws;
      && u.sessions == t.sessions[msg.peerId := Session(ws, now)]
      && prior != ws && prior in u.sockets && u.sockets[prior] != Open
      && prior in u.conns && u.conns[prior].peerId.None?
  {
    assert Carries(t, t.sessions[msg.peerId].ws, msg.peerId);
    assert EntryOk(At(t, t.sessions[msg.peerId].ws));
  }

  /** A signature registers one connection at most: it is bound to the nonce of that connection. */
  lemma SignatureRegistersOnce(c: Config, events: seq<Event>, t: State, v: nat, w: nat)
    requires Runs(c, Init(), events, t) && v in t.registered && w in t.registered && t.registered[v] == t.registered[w]
    ensures v == w
  {
    InvAtFirst(c);
    EveryRunKeepsInv(c, Init(), events, t);
    assert EntryOk(At(t, v)) && EntryOk(At(t, w));
  }

  /** What a connection said of itself when it was accepted and what it has proved is settled; no nonce is renewed. */
  predicate Settled(e: Entry, f: Entry) {
    && (e.registered.Some? ==> f.registered == e.registered)
    && (e.conn.Some? ==> (
          f.conn.Some? && f.conn.value.host == e.conn.value.host && f.conn.value.address == e.conn.value.address))
    && (e.conn.Some? && e.conn.value.greeted && e.conn.value.nonce.None? ==>
          f.conn.Some? && f.conn.value.greeted && f.conn.value.nonce.None?)
  }

  lemma JoinSettles(c: Config, t: State, ws: nat, msg: Join, allowed: bool, now: int, v: nat)
    requires Inv(c, t) && ws in t.conns && ws in t.sockets
    ensures Settled(At(t, v), At(AfterJoin(c, t, ws, msg, allowed, now), v))
  {
    hide At, Inv, Closes, Spent, Registers;
    var spent := Spent(t, ws);
    ClosingAt(t, ws, v);
    ClosingAt(spent, ws, v);
    SpentAt(t, ws, v);
    SpentAt(t, ws, ws);
    SpentAgrees(t, ws);
    RegisteringAt(spent, ws, msg, now, v);
    assert EntryOk(At(t, ws)) by { EveryEntryOk(c, t, ws); }
  }

  /** A join that is not refused registers, unless the socket has begun to close meanwhile. */
  lemma RegistersIffNotRefused(c: Config, t: State, ws: nat, msg: Join, allowed: bool, now: int)
    requires ws in t.conns && ws in t.sockets && t.conns[ws].peerId.None?
    ensures var u := AfterJoin(c, t, ws, msg, allowed, now);
      JoinRefusal(c, t, ws, msg, allowed).None? && t.sockets[ws] == Open
      <==> ws in u.conns && u.conns[ws].peerId == Some(msg.peerId)
  {
    hide HostOk, Full, CloseSocket, RegisteredConns;
    OwnIdIsSet(Spent(t, ws).conns, t.connections, Prior(t.sessions, ws, msg.peerId), ws, msg.peerId);
  }

  lemma EveryEntryOk(c: Config, t: State, v: nat)
    requires Inv(c, t)
    ensures EntryOk(At(t, v))
  {
  }

  lemma EventSettles(c: Config, t: State, e: Event, v: nat)
    requires Inv(c, t) && CanHappen(t, e)
    ensures Settled(At(t, v), At(After(c, t, e), v))
  {
    hide Inv, At, AfterAccept, AfterHello, AfterTimeout, Closes, AfterJoin, AfterClose, AfterCleanup, AfterShutdown;
    EveryEntryOk(c, t, v);
    match e {
      case Accept(ws, address, host) => AcceptAt(c, t, ws, address, host, v); NeverAccepted(c, t, ws);
      case Hello(ws, nonce) => HelloAt(t, ws, nonce, v);
      case HandshakeTimeout(ws) => TimeoutAt(t, ws, v);
      case BadMessage(ws) => ClosingAt(t, ws, v);
      case JoinArrives(ws, msg, allowed, now) => JoinSettles(c, t, ws, msg, allowed, now, v);
      case RelayArrives(ws, _, _, _) => ClosingAt(t, ws, v);
      case Pong(ws, now) => assert At(AfterPong(t, ws, now), v) == At(t, v) by { PongAt(t, ws, now, v); }
      case CloseBegins(ws) => ClosingAt(t, ws, v);
      case Close(ws) => CloseAt(t, ws, v);
      case CleanupPings(now) => CleanupAt(c, t, now, v);
      case Shutdown =>
        if !t.stopped { ShutdownAt(t, v); } else { assert AfterShutdown(t) == t by { ShutdownTwice(t); } }
    }
  }

  lemma PongAt(t: State, ws: nat, now: int, v: nat)
    ensures At(AfterPong(t, ws, now), v) == At(t, v)
  {
  }

  lemma ShutdownTwice(t: State)
    requires t.stopped
    ensures AfterShutdown(t) == t
  {
  }

  /** So a connection registers once at most, and only its first attempt can get as far as the signature. */
  lemma {:induction false} OneAttemptPerConnection(c: Config, t: State, events: seq<Event>, u: State, ws: nat)
    requires Inv(c, t) && Runs(c, t, events, u)
    ensures Settled(At(t, ws), At(u, ws))
    decreases |events|
  {
    hide Inv, CanHappen, After, At;
    if events != [] {
      EveryEventKeepsInv(c, t, events[0]);
      EventSettles(c, t, events[0], ws);
      OneAttemptPerConnection(c, After(c, t, events[0]), events[1..], u, ws);
    }
  }

  lemma AttemptUsesTheNonce(c: Config, t: State, ws: nat, msg: Join, allowed: bool, now: int)
    requires Inv(c, t) && CanHappen(t, JoinArrives(ws, msg, allowed, now)) && Screen(c, t.conns[ws], msg, allowed).Pass?
    ensures var conn := At(AfterJoin(c, t, ws, msg, allowed, now), ws).conn;
      conn.Some? && conn.value.greeted && conn.value.nonce.None?
  {
    hide At, Inv, Closes, Spent, Registers;
    var spent := Spent(t, ws);
    ClosingAt(spent, ws, ws);
    SpentAt(t, ws, ws);
    SpentAgrees(t, ws);
    RegisteringAt(spent, ws, msg, now, ws);
    EveryEntryOk(c, t, ws);
  }

  /** A relay reaches an open connection that proved to be the target, under the name its sender proved. */
  lemma RelayGoesBetweenProvenPeers(c: Config, t: State, ws: nat, target: string, allowed: bool)
    requires Inv(c, t) && ws in t.conns && Delivers(t, ws, target, allowed).Some?
    ensures var (to, sender) := Delivers(t, ws, target, allowed).value;
      && to in t.connections && to in t.sockets && t.sockets[to] == Open
      && At(t, to).registered.Some? && At(t, to).registered.value.peerId == target
      && At(t, to).issued == Some(At(t, to).registered.value.nonce)
      && At(t, ws).registered.Some? && At(t, ws).registered.value.peerId == sender
      && At(t, ws).issued == Some(At(t, ws).registered.value.nonce)
      && to != ws
  {
    assert EntryOk(At(t, ws));
    assert EntryOk(At(t, t.sessions[target].ws));
    assert Carries(t, t.sessions[target].ws, target);
  }

  /** When the socket last answered in a run, or before it. */
  function LastHeard(events: seq<Event>, ws: nat, before: int): int
  {
    if events == [] then before else
      LastHeard(events[1..], ws, if events[0].Pong? && events[0].ws == ws then events[0].now else before)
  }

  ghost predicate Holds(t: State, ws: nat, p: string) {
    p in t.sessions && t.sessions[p].ws == ws
  }

  /** The connection has had its one attempt. */
  predicate HasTried(t: State, ws: nat) {
    ws in t.conns && t.conns[ws].greeted && t.conns[ws].nonce.None?
  }

  /** A session lost by a connection that has had its attempt is not won back; one it keeps changes by pongs only. */
  lemma SessionStep(c: Config, t: State, e: Event, ws: nat, p: string)
    requires Inv(c, t) && CanHappen(t, e) && HasTried(t, ws)
    ensures var u := After(c, t, e);
      && HasTried(u, ws) && (Holds(u, ws, p) ==> Holds(t, ws, p))
      && (Holds(u, ws, p) ==>
            u.sessions[p].lastActive == if e.Pong? && e.ws == ws then e.now else t.sessions[p].lastActive)
  {
    hide Inv, HasTried, AfterJoin, CloseSocket, Terminated, Silenced, Released;
    EventSettlesAt(c, t, e, ws);
    AllWatched(c, t);
    if e.JoinArrives? { JoinKeepsSession(c, t, e.ws, e.msg, e.allowed, e.now, ws, p); }
  }

  lemma JoinKeepsSession(c: Config, t: State, v: nat, msg: Join, allowed: bool, now: int, ws: nat, p: string)
    requires Inv(c, t) && v in t.conns && v in t.sockets && HasTried(t, ws)
    ensures var u := AfterJoin(c, t, v, msg, allowed, now);
      Holds(u, ws, p) ==> Holds(t, ws, p) && u.sessions[p] == t.sessions[p]
  {
    hide Inv, CloseSocket, HostOk, Full, RegisteredConns;
    assert Screen(c, t.conns[v], msg, allowed).Pass? ==> v != ws;
  }

  lemma EventSettlesAt(c: Config, t: State, e: Event, ws: nat)
    requires Inv(c, t) && CanHappen(t, e) && HasTried(t, ws)
    ensures HasTried(After(c, t, e), ws)
  {
    hide Inv, After, CanHappen;
    EventSettles(c, t, e, ws);
  }

  /**
   * In any run a session that is still held was last active when its socket last answered. So cleaning up ends it exactly
   * if that was longer ago than idleTimeout.
   */
  lemma {:induction false} HeardSessionsStay(
    c: Config, t: State, events: seq<Event>, u: State, ws: nat, p: string, now: int)
    requires Inv(c, t) && Runs(c, t, events, u) && HasTried(t, ws) && Holds(t, ws, p) && Holds(u, ws, p)
    ensures u.sessions[p].lastActive == LastHeard(events, ws, t.sessions[p].lastActive)
    ensures p in After(c, u, CleanupPings(now)).sessions
      <==> now - LastHeard(events, ws, t.sessions[p].lastActive) <= c.idleTimeout
    decreases |events|
  {
    hide Inv, CanHappen, HasTried, AfterJoin;
    if events != [] {
      EveryEventKeepsInv(c, t, events[0]);
      SessionStep(c, t, events[0], ws, p);
      var next := After(c, t, events[0]);
      HeldAlong(c, next, events[1..], u, ws, p);
      HeardSessionsStay(c, next, events[1..], u, ws, p, now);
    }
  }

  lemma {:induction false} HeldAlong(c: Config, t: State, events: seq<Event>, u: State, ws: nat, p: string)
    requires Inv(c, t) && Runs(c, t, events, u) && HasTried(t, ws) && Holds(u, ws, p)
    ensures Holds(t, ws, p)
    decreases |events|
  {
    hide Inv, CanHappen, HasTried, After, Holds;
    if events != [] {
      EveryEventKeepsInv(c, t, events[0]);
      SessionStep(c, t, events[0], ws, p);
      HeldAlong(c, After(c, t, events[0]), events[1..], u, ws, p);
    }
  }

  /** The timer of a connection that did not register can still fire while the socket is open, and then closes it. */
  lemma HandshakeIsBounded(c: Config, t: State, ws: nat)
    requires Inv(c, t) && ws in t.conns && ws in t.sockets && t.sockets[ws] == Open && t.conns[ws].peerId.None?
    ensures CanHappen(t, HandshakeTimeout(ws)) && After(c, t, HandshakeTimeout(ws)).sockets[ws] == Closing
  {
    assert EntryOk(At(t, ws));
  }
}
