/** Every event keeps the tracker's bookkeeping in order. */
module TrackerInvariant {
  import opened Wrappers
  import opened Tracker

  /** Steps that count nothing: the live connections stay, with their addresses. */
  lemma CountsStay(c: Config, t: State, u: State)
    requires CountsOk(c, t) && u.connections == t.connections && u.perAddress == t.perAddress
    requires forall ws :: AddressOf(At(u, ws)) == AddressOf(At(t, ws))
    ensures CountsOk(c, u)
  {
    hide At;
    forall a ensures LiveAt(u, a) == LiveAt(t, a) { }
  }

  /** Steps that end no session but by removing it. */
  lemma SessionsStay(t: State, u: State)
    requires SessionsOk(t) && u.watched == t.watched
    requires forall p :: p in u.sessions ==> p in t.sessions && u.sessions[p].ws == t.sessions[p].ws
    requires forall p :: p in u.sessions && Carries(t, t.sessions[p].ws, p) ==> At(u, t.sessions[p].ws).live
    requires forall ws, p :: IsAs(At(u, ws), p) <==> IsAs(At(t, ws), p)
    requires forall ws, p :: OpenAs(u, ws, p) ==> OpenAs(t, ws, p)
    requires forall ws, p :: OpenAs(u, ws, p) && p in t.sessions ==> p in u.sessions
    ensures SessionsOk(u)
  {
    hide At, IsAs;
    forall p | p in u.sessions ensures Carries(u, u.sessions[p].ws, p) {
      assert Carries(t, t.sessions[p].ws, p);
      assert IsAs(At(u, t.sessions[p].ws), p);
    }
  }

  // A socket begins to close

  lemma ClosingAt(t: State, ws: nat, v: nat)
    ensures At(Closes(t, ws), v) ==
      if v == ws && At(t, v).ready == Some(Open) then At(t, v).(ready := Some(Closing)) else At(t, v)
  {
  }

  lemma ClosingKeepsInv(c: Config, t: State, ws: nat)
    requires Inv(c, t)
    ensures Inv(c, Closes(t, ws))
  {
    hide At, CountsOk, SessionsOk;
    var u := Closes(t, ws);
    forall v ensures EntryOk(At(u, v)) && AddressOf(At(u, v)) == AddressOf(At(t, v)) && At(u, v).live == At(t, v).live
      && At(u, v).conn == At(t, v).conn && (At(u, v).ready == Some(Open) ==> At(t, v).ready == Some(Open))
    {
      ClosingAt(t, ws, v);
    }
    CountsStay(c, t, u);
    SessionsStay(t, u);
  }

  // A new connection

  lemma AcceptAt(c: Config, t: State, ws: nat, address: string, host: Option<string>, v: nat)
    ensures At(AfterAccept(c, t, ws, address, host), v) ==
      if v != ws then At(t, v)
      else if Count(t.perAddress, address) >= c.maxConnectionsPerAddress then At(t, v).(ready := Some(Closing))
      else At(t, v).(ready := Some(Open), conn := Some(Conn(false, None, host, address, None, true)), live := true)
  {
  }

  lemma CountsWithOneMore(c: Config, t: State, u: State, ws: nat, address: string)
    requires CountsOk(c, t) && ws !in t.connections && u.connections == t.connections + {ws}
    requires AddressOf(At(u, ws)) == Some(address) && Count(t.perAddress, address) < c.maxConnectionsPerAddress
    requires forall v :: v != ws ==> At(u, v) == At(t, v)
    requires u.perAddress == t.perAddress[address := Count(t.perAddress, address) + 1]
    ensures CountsOk(c, u)
  {
    hide LiveAt;
    forall a ensures Count(u.perAddress, a) == |LiveAt(u, a)| <= c.maxConnectionsPerAddress {
      OneMoreAt(t, u, ws, address, a);
      assert Count(t.perAddress, a) == |LiveAt(t, a)| <= c.maxConnectionsPerAddress;
    }
    assert Count(t.perAddress, address) == |LiveAt(t, address)|;
  }

  lemma OneMoreAt(t: State, u: State, ws: nat, address: string, a: string)
    requires ws !in t.connections && u.connections == t.connections + {ws}
    requires AddressOf(At(u, ws)) == Some(address) && forall v :: v != ws ==> At(u, v) == At(t, v)
    ensures |LiveAt(u, a)| == |LiveAt(t, a)| + if a == address then 1 else 0
  {
    hide At, AddressOf;
    assert LiveAt(u, a) == if a == address then LiveAt(t, a) + {ws} else LiveAt(t, a);
  }

  lemma AcceptKeepsInv(c: Config, t: State, ws: nat, address: string, host: Option<string>)
    requires Inv(c, t) && ws !in t.sockets
    ensures Inv(c, AfterAccept(c, t, ws, address, host))
  {
    hide At, CountsOk, SessionsOk, AfterAccept;
    var u := AfterAccept(c, t, ws, address, host);
    NeverAccepted(c, t, ws);
    AcceptLeaves(c, t, ws, address, host);
    forall v ensures EntryOk(At(u, v)) && (At(u, v) == At(t, v) || v == ws) {
      AcceptAt(c, t, ws, address, host, v);
    }
    AcceptAt(c, t, ws, address, host, ws);
    if Count(t.perAddress, address) < c.maxConnectionsPerAddress {
      CountsWithOneMore(c, t, u, ws, address);
    } else {
      CountsStay(c, t, u);
    }
    SessionsStay(t, u);
  }

  lemma AcceptLeaves(c: Config, t: State, ws: nat, address: string, host: Option<string>)
    ensures var u := AfterAccept(c, t, ws, address, host);
      && u.sessions == t.sessions && u.watched == t.watched && u.issued == t.issued
      && (Count(t.perAddress, address) < c.maxConnectionsPerAddress ==>
            u.connections == t.connections + {ws}
            && u.perAddress == t.perAddress[address := Count(t.perAddress, address) + 1])
      && (Count(t.perAddress, address) >= c.maxConnectionsPerAddress ==>
            u.connections == t.connections && u.perAddress == t.perAddress)
  {
  }

  lemma NeverAccepted(c: Config, t: State, ws: nat)
    requires Inv(c, t) && ws !in t.sockets
    ensures EntryOk(At(t, ws)) && At(t, ws).ready.None? && ws !in t.connections
  {
    assert At(t, ws).live == (ws in t.connections);
  }

  // The hello

  lemma HelloAt(t: State, ws: nat, nonce: nat, v: nat)
    requires ws in t.conns && ws in t.sockets
    ensures At(AfterHello(t, ws, nonce), v) ==
      if v != ws then At(t, v)
      else if t.sockets[ws] != Open then At(t, v).(conn := Some(t.conns[ws].(greeted := true)))
      else At(t, v).(conn := Some(t.conns[ws].(greeted := true, nonce := Some(nonce))), issued := Some(nonce))
    ensures At(t, ws).conn == Some(t.conns[ws])
  {
  }

  lemma HelloKeepsInv(c: Config, t: State, ws: nat, nonce: nat)
    requires Inv(c, t) && CanHappen(t, Hello(ws, nonce))
    ensures Inv(c, AfterHello(t, ws, nonce))
  {
    hide At, CountsOk, SessionsOk;
    var u := AfterHello(t, ws, nonce);
    forall v ensures At(u, v) == At(t, v) || v == ws {
      HelloAt(t, ws, nonce, v);
    }
    HelloAt(t, ws, nonce, ws);
    assert EntryOk(At(t, ws));
    FreshNonce(t.issued, ws, nonce);
    CountsStay(c, t, u);
    SessionsStay(t, u);
  }

  lemma FreshNonce(issued: map<nat, nat>, ws: nat, nonce: nat)
    requires NoncesDiffer(issued) && nonce !in issued.Values
    ensures NoncesDiffer(issued[ws := nonce])
  {
    assert forall v :: v in issued ==> issued[v] in issued.Values;
  }

  // The handshake timer

  lemma TimeoutAt(t: State, ws: nat, v: nat)
    requires ws in t.conns
    ensures At(AfterTimeout(t, ws), v) ==
      if v != ws then At(t, v)
      else At(t, v).(
        conn := Some(t.conns[ws].(timer := false)),
        ready := if t.conns[ws].peerId.None? && At(t, v).ready == Some(Open) then Some(Closing) else At(t, v).ready)
    ensures At(t, ws).conn == Some(t.conns[ws])
  {
  }

  lemma TimeoutKeepsInv(c: Config, t: State, ws: nat)
    requires Inv(c, t) && ws in t.conns
    ensures Inv(c, AfterTimeout(t, ws))
  {
    hide At, CountsOk, SessionsOk;
    var u := AfterTimeout(t, ws);
    forall v ensures At(u, v) == At(t, v) || v == ws {
      TimeoutAt(t, ws, v);
    }
    TimeoutAt(t, ws, ws);
    assert EntryOk(At(t, ws));
    CountsStay(c, t, u);
    SessionsStay(t, u);
  }

  // A join

  lemma SpentAt(t: State, ws: nat, v: nat)
    requires ws in t.conns
    ensures At(Spent(t, ws), v) == if v != ws then At(t, v) else At(t, v).(conn := Some(t.conns[ws].(nonce := None)))
    ensures At(t, ws).conn == Some(t.conns[ws])
  {
  }

  lemma SpendingKeepsInv(c: Config, t: State, ws: nat)
    requires Inv(c, t) && ws in t.conns
    ensures Inv(c, Spent(t, ws))
  {
    hide At, CountsOk, SessionsOk;
    var u := Spent(t, ws);
    forall v ensures At(u, v) == At(t, v) || v == ws {
      SpentAt(t, ws, v);
    }
    SpentAt(t, ws, ws);
    assert EntryOk(At(t, ws));
    CountsStay(c, t, u);
    SessionsStay(t, u);
  }

  /** The state in which a join registers: the nonce is spent, the signature fits, the socket is open. */
  ghost predicate MayRegister(c: Config, t: State, ws: nat, msg: Join) {
    && At(t, ws).ready == Some(Open) && At(t, ws).conn.Some? && !Full(c, t, msg.peerId)
    && At(t, ws).conn.value.peerId.None? && At(t, ws).conn.value.nonce.None? && At(t, ws).registered.None?
    && At(t, ws).issued.Some? && msg.sig == Signature(At(t, ws).issued.value, msg.peerId, msg.host)
  }

  lemma RegisteringAt(t: State, ws: nat, msg: Join, now: int, v: nat)
    requires ws in t.conns
    ensures At(Registers(t, ws, msg, now), v) ==
      if v == ws then
        At(t, v).(conn := Some(t.conns[ws].(peerId := Some(msg.peerId), timer := false)), registered := Some(msg.sig))
      else if Prior(t.sessions, ws, msg.peerId) != Some(v) then At(t, v)
      else At(t, v).(
        conn := if v in t.connections && v in t.conns then Some(t.conns[v].(peerId := None)) else At(t, v).conn,
        ready := if At(t, v).ready == Some(Open) then Some(Closing) else At(t, v).ready)
    ensures At(t, ws).conn == Some(t.conns[ws]) && (v in t.conns ==> At(t, v).conn == Some(t.conns[v]))
    ensures (v in t.connections <==> At(t, v).live) && (v in t.conns <==> At(t, v).conn.Some?)
  {
  }

  lemma RegisteringKeepsInv(c: Config, t: State, ws: nat, msg: Join, now: int)
    requires Inv(c, t) && ws in t.conns && MayRegister(c, t, ws, msg)
    ensures Inv(c, Registers(t, ws, msg, now))
  {
    hide At, CountsOk, SessionsOk;
    var u := Registers(t, ws, msg, now);
    forall v ensures EntryOk(At(u, v)) && AddressOf(At(u, v)) == AddressOf(At(t, v)) {
      RegisteringAt(t, ws, msg, now, v);
      assert EntryOk(At(t, v));
    }
    CountsStay(c, t, u);
    RegisteringKeepsSessions(c, t, ws, msg, now);
    OneMoreSession(c, t, ws, msg, now);
  }

  lemma OneMoreSession(c: Config, t: State, ws: nat, msg: Join, now: int)
    requires ws in t.conns && |t.sessions| <= c.maxSessions && !Full(c, t, msg.peerId)
    ensures |Registers(t, ws, msg, now).sessions| <= c.maxSessions
  {
    var more := t.sessions[msg.peerId := Session(ws, now)];
    assert |more| == |more.Keys| && |t.sessions| == |t.sessions.Keys| && more.Keys == t.sessions.Keys + {msg.peerId};
  }

  lemma RegisteringKeepsSessions(c: Config, t: State, ws: nat, msg: Join, now: int)
    requires Inv(c, t) && ws in t.conns && MayRegister(c, t, ws, msg)
    ensures SessionsOk(Registers(t, ws, msg, now))
  {
    hide At, CountsOk, EntryOk;
    var u := Registers(t, ws, msg, now);
    assert At(t, ws).live by { assert EntryOk(At(t, ws)); OpenIsLive(At(t, ws)); }
    forall p | p in u.sessions ensures Carries(u, u.sessions[p].ws, p) {
      RegisteringAt(t, ws, msg, now, u.sessions[p].ws);
      assert p in t.sessions ==> Carries(t, t.sessions[p].ws, p);
      assert msg.peerId in t.sessions ==> Carries(t, t.sessions[msg.peerId].ws, msg.peerId);
    }
    forall v, p | OpenAs(u, v, p) ensures p in u.sessions && u.sessions[p].ws == v {
      RegisteringAt(t, ws, msg, now, v);
      assert v != ws ==> OpenAs(t, v, p) || Prior(t.sessions, ws, msg.peerId) == Some(v);
      assert msg.peerId in t.sessions ==> Carries(t, t.sessions[msg.peerId].ws, msg.peerId);
    }
  }

  lemma OpenIsLive(e: Entry)
    requires EntryOk(e) && e.ready == Some(Open) && e.conn.Some?
    ensures e.live
  {
  }

  lemma JoinKeepsInv(c: Config, t: State, ws: nat, msg: Join, allowed: bool, now: int)
    requires Inv(c, t) && ws in t.conns && ws in t.sockets
    ensures Inv(c, AfterJoin(c, t, ws, msg, allowed, now))
  {
    hide Inv, Registers, Closes, Spent;
    ClosingKeepsInv(c, t, ws);
    if Screen(c, t.conns[ws], msg, allowed).Pass? {
      var spent := Spent(t, ws);
      SpendingKeepsInv(c, t, ws);
      ClosingKeepsInv(c, spent, ws);
      SpentAgrees(t, ws);
      if msg.sig == Signature(t.conns[ws].nonce.value, msg.peerId, msg.host)
         && t.sockets[ws] == Open && !Full(c, t, msg.peerId) {
        ReadyToRegister(c, t, ws, msg);
        RegisteringKeepsInv(c, spent, ws, msg, now);
      }
    }
  }

  lemma SpentAgrees(t: State, ws: nat)
    requires ws in t.conns
    ensures var u := Spent(t, ws); u.conns.Keys == t.conns.Keys && u.sockets == t.sockets && u.sessions == t.sessions
  {
  }

  lemma ReadyToRegister(c: Config, t: State, ws: nat, msg: Join)
    requires Inv(c, t) && ws in t.conns && ws in t.sockets && t.sockets[ws] == Open && !Full(c, t, msg.peerId)
    requires t.conns[ws].peerId.None? && t.conns[ws].nonce.Some?
    requires msg.sig == Signature(t.conns[ws].nonce.value, msg.peerId, msg.host)
    ensures MayRegister(c, Spent(t, ws), ws, msg)
  {
    hide SessionsOk, CountsOk;
    assert EntryOk(At(t, ws));
  }

  // Keep-alives, closing, clean-up

  lemma PongKeepsInv(c: Config, t: State, ws: nat, now: int)
    requires Inv(c, t)
    ensures Inv(c, AfterPong(t, ws, now))
  {
    hide CountsOk, SessionsOk;
    var u := AfterPong(t, ws, now);
    assert forall v :: At(u, v) == At(t, v);
    assert u.sessions.Keys == t.sessions.Keys && |u.sessions| == |u.sessions.Keys| && |t.sessions| == |t.sessions.Keys|;
    CountsStay(c, t, u);
    SessionsStay(t, u);
  }

  lemma CloseAt(t: State, ws: nat, v: nat)
    requires ws in t.conns && ws in t.sockets
    ensures At(AfterClose(t, ws), v) ==
      if v != ws then At(t, v)
      else At(t, v).(
        ready := Some(Closed), live := false,
        conn := Some(if ws in t.connections then t.conns[ws].(timer := false) else t.conns[ws]))
    ensures At(t, ws).conn == Some(t.conns[ws])
  {
  }

  lemma CountsWithOneLess(c: Config, t: State, u: State, ws: nat, address: string)
    requires CountsOk(c, t) && ws in t.connections && u.connections == t.connections - {ws}
    requires AddressOf(At(t, ws)) == Some(address)
    requires forall v :: v != ws ==> At(u, v) == At(t, v)
    requires u.perAddress == Released(t.perAddress, address)
    ensures CountsOk(c, u)
  {
    hide At, AddressOf;
    forall a ensures LiveAt(u, a) == if a == address then LiveAt(t, a) - {ws} else LiveAt(t, a) { }
    assert ws in LiveAt(t, address);
    assert Count(t.perAddress, address) == |LiveAt(t, address)|;
    forall a ensures Count(u.perAddress, a) == |LiveAt(u, a)| <= c.maxConnectionsPerAddress {
      assert Count(t.perAddress, a) == |LiveAt(t, a)|;
    }
  }

  lemma CloseKeepsInv(c: Config, t: State, ws: nat)
    requires Inv(c, t) && ws in t.conns && ws in t.sockets
    ensures Inv(c, AfterClose(t, ws))
  {
    hide At, CountsOk, SessionsOk;
    var u := AfterClose(t, ws);
    forall v ensures EntryOk(At(u, v)) && (At(u, v) == At(t, v) || v == ws) {
      CloseAt(t, ws, v);
      assert EntryOk(At(t, v));
    }
    CloseAt(t, ws, ws);
    FewerSessions(t.sessions, u.sessions);
    if ws in t.connections { CountsWithOneLess(c, t, u, ws, t.conns[ws].address); }
    else {
      assert u.connections == t.connections;
      CountsStay(c, t, u);
    }
    CloseKeepsSessions(t, ws);
  }

  lemma CloseKeepsSessions(t: State, ws: nat)
    requires SessionsOk(t) && ws in t.conns && ws in t.sockets
    ensures SessionsOk(AfterClose(t, ws))
  {
    hide At;
    var u := AfterClose(t, ws);
    forall v ensures (At(u, v) == At(t, v) || v == ws) && At(u, ws).ready == Some(Closed)
      && forall p :: IsAs(At(u, v), p) <==> IsAs(At(t, v), p)
    {
      CloseAt(t, ws, v);
      CloseAt(t, ws, ws);
    }
    SessionsStay(t, u);
  }

  lemma FewerSessions(sessions: map<string, Session>, fewer: map<string, Session>)
    requires fewer.Keys <= sessions.Keys
    ensures |fewer| <= |sessions|
  {
    assert sessions.Keys == fewer.Keys + (sessions.Keys - fewer.Keys);
    assert |fewer| == |fewer.Keys| && |sessions| == |sessions.Keys|;
  }

  lemma CleanupAt(c: Config, t: State, now: int, v: nat)
    ensures At(AfterCleanup(c, t, now), v) ==
      if v in IdleSockets(c, t.sessions, now) && At(t, v).ready == Some(Open) then At(t, v).(ready := Some(Closing))
      else At(t, v)
  {
    hide IdleSockets;
  }

  lemma CleanupKeepsInv(c: Config, t: State, now: int)
    requires Inv(c, t)
    ensures Inv(c, AfterCleanup(c, t, now))
  {
    hide At, CountsOk;
    var u := AfterCleanup(c, t, now);
    forall v
      ensures EntryOk(At(u, v)) && At(u, v).conn == At(t, v).conn && At(u, v).live == At(t, v).live
      ensures At(u, v).ready == Some(Open) ==> v !in IdleSockets(c, t.sessions, now) && At(t, v).ready == Some(Open)
    {
      CleanupAt(c, t, now, v);
      assert EntryOk(At(t, v));
    }
    FewerSessions(t.sessions, u.sessions);
    CountsStay(c, t, u);
    assert forall p :: p in t.sessions && Idle(c, t.sessions[p], now) ==> t.sessions[p].ws in IdleSockets(c, t.sessions, now);
    SessionsStay(t, u);
  }

  lemma ShutdownAt(t: State, v: nat)
    requires !t.stopped
    ensures var e, f := At(t, v), At(AfterShutdown(t), v);
      && !f.live && f.issued == e.issued && f.registered == e.registered
      && (e.conn.None? <==> f.conn.None?)
      && (e.conn.Some? ==> f.conn.value == if e.live then e.conn.value.(timer := false) else e.conn.value)
      && (f.ready.None? <==> e.ready.None?)
      && (e.live ==> f.ready != Some(Open)) && (f.ready == Some(Open) ==> e.ready == Some(Open))
  {
  }

  lemma ShutdownKeepsInv(c: Config, t: State)
    requires Inv(c, t)
    ensures Inv(c, AfterShutdown(t))
  {
    if !t.stopped {
      hide At, AfterShutdown, SessionsOk;
      var u := AfterShutdown(t);
      ShutdownEmpties(t);
      forall v ensures EntryOk(At(u, v)) && (At(u, v).ready != Some(Open) || At(u, v).conn.None?) {
        ShutdownAt(t, v);
        assert EntryOk(At(t, v));
      }
      NothingLive(c, u);
    }
  }

  lemma ShutdownEmpties(t: State)
    requires !t.stopped
    ensures var u := AfterShutdown(t); u.connections == {} && u.perAddress == map[] && u.sessions == map[] && u.issued == t.issued
  {
  }

  lemma NothingLive(c: Config, u: State)
    requires u.connections == {} && u.perAddress == map[] && u.sessions == map[]
    requires forall v :: At(u, v).ready != Some(Open) || At(u, v).conn.None?
    ensures CountsOk(c, u) && SessionsOk(u)
  {
    hide At;
    assert forall a :: LiveAt(u, a) == {};
  }

  /** Whatever happens next, the bookkeeping stays in order. */
  lemma EveryEventKeepsInv(c: Config, t: State, e: Event)
    requires Inv(c, t) && CanHappen(t, e)
    ensures Inv(c, After(c, t, e))
  {
    hide Inv, AfterAccept, AfterHello, AfterTimeout, Closes, AfterJoin, AfterPong, AfterClose, AfterCleanup,
      AfterShutdown;
    match e {
      case Accept(ws, address, host) => AcceptKeepsInv(c, t, ws, address, host);
      case Hello(ws, nonce) => HelloKeepsInv(c, t, ws, nonce);
      case HandshakeTimeout(ws) => TimeoutKeepsInv(c, t, ws);
      case BadMessage(ws) => ClosingKeepsInv(c, t, ws);
      case JoinArrives(ws, msg, allowed, now) => JoinKeepsInv(c, t, ws, msg, allowed, now);
      case RelayArrives(ws, _, _, _) => ClosingKeepsInv(c, t, ws);
      case Pong(ws, now) => PongKeepsInv(c, t, ws, now);
      case CloseBegins(ws) => ClosingKeepsInv(c, t, ws);
      case Close(ws) => CloseKeepsInv(c, t, ws);
      case CleanupPings(now) => CleanupKeepsInv(c, t, now);
      case Shutdown =>
        ShutdownKeepsInv(c, t);
    }
  }

  lemma InvAtFirst(c: Config)
    ensures Inv(c, Init())
  {
    assert forall a :: LiveAt(Init(), a) == {};
  }
}
