/** The tracker server and its session manager, event handler by event handler, against the state machine. */
module TrackerService {
  import opened Wrappers
  import opened Tracker
  import opened TrackerInvariant

  datatype RegisterResult = Registered(replaced: Option<nat>) | Capacity

  const PEERS_PER_JOIN := 8

  ghost predicate NoRepeats(s: seq<string>) {
    forall i, j :: 0 <= i < j < |s| ==> s[i] != s[j]
  }

  /** What a new peer is told: eight other registered peers, or all of them if there are fewer. */
  ghost predicate Bootstraps(peers: seq<string>, sessions: map<string, Session>, me: string) {
    && NoRepeats(peers) && |peers| <= 8 && (forall x :: x in peers ==> x in sessions && x != me)
    && (|peers| < 8 ==> forall x :: x in sessions && x != me ==> x in peers)
  }

  /** Fisher-Yates, from the last place down; the random numbers may be any. */
  method Shuffle(ids: array<string>)
    modifies ids
    ensures forall x :: x in ids[..] <==> x in old(ids[..])
    ensures NoRepeats(old(ids[..])) ==> NoRepeats(ids[..])
  {
    var i := ids.Length - 1;
    while i > 0
      invariant forall x :: x in ids[..] <==> x in old(ids[..])
      invariant NoRepeats(old(ids[..])) ==> NoRepeats(ids[..])
    {
      var j :| 0 <= j <= i;
      ghost var before := ids[..];
      ids[i], ids[j] := ids[j], ids[i];
      SwapKeepsMembers(before, ids[..], i, j);
      i := i - 1;
    }
  }

  lemma SwapKeepsMembers(before: seq<string>, after: seq<string>, i: nat, j: nat)
    requires j <= i < |before| == |after|
    requires forall k :: 0 <= k < |before| ==> after[k] == if k == i then before[j] else if k == j then before[i] else before[k]
    ensures forall x :: x in after <==> x in before
    ensures NoRepeats(before) ==> NoRepeats(after)
  {
    forall x | x in before ensures x in after {
      var k :| 0 <= k < |before| && before[k] == x;
      assert x == if k == i then after[j] else if k == j then after[i] else after[k];
    }
  }

  class SessionManager {
    const maxSessions: nat
    const idleTimeout: int
    var sessions: map<string, Session>
    /** The close and pong listeners added to sockets by registering. */
    var watched: set<(nat, string)>

    constructor (maxSessions: nat, idleTimeout: int)
      ensures this.maxSessions == maxSessions && this.idleTimeout == idleTimeout && sessions == map[] && watched == {}
    {
      this.maxSessions, this.idleTimeout, sessions, watched := maxSessions, idleTimeout, map[], {};
    }

    method RegisterSession(ws: nat, peerId: string, now: int) returns (result: RegisterResult)
      modifies this
      ensures peerId in old(sessions) && old(sessions)[peerId].ws == ws ==>
        result == Registered(None) && sessions == old(sessions)[peerId := Session(ws, now)] && watched == old(watched)
      ensures peerId !in old(sessions) && |old(sessions)| >= maxSessions ==>
        result == Capacity && sessions == old(sessions) && watched == old(watched)
      ensures (if peerId in old(sessions) then old(sessions)[peerId].ws != ws else |old(sessions)| < maxSessions) ==>
        result == Registered(if peerId in old(sessions) then Some(old(sessions)[peerId].ws) else None)
        && sessions == old(sessions)[peerId := Session(ws, now)] && watched == old(watched) + {(ws, peerId)}
    {
      if peerId in sessions && sessions[peerId].ws == ws {
        sessions := sessions[peerId := Session(ws, now)];
        return Registered(None);
      }
      if peerId !in sessions && |sessions| >= maxSessions {
        return Capacity;
      }
      var existing := Prior(sessions, ws, peerId);
      sessions := sessions[peerId := Session(ws, now)];
      watched := watched + {(ws, peerId)};
      return Registered(existing);
    }

    /** The close listeners on ws: each removes the session it was added for, if that still belongs to ws. */
    method OnClose(ws: nat)
      modifies `sessions
      ensures sessions == Dropped(old(sessions), watched, ws)
    {
      var todo := sessions.Keys;
      while todo != {}
        invariant todo <= old(sessions.Keys) && sessions.Keys <= old(sessions.Keys)
        invariant forall p :: p in old(sessions) ==>
          (p in sessions <==> p in todo || !(old(sessions)[p].ws == ws && (ws, p) in watched))
          && (p in sessions ==> sessions[p] == old(sessions)[p])
      {
        var p :| p in todo;
        if (ws, p) in watched && sessions[p].ws == ws { sessions := sessions - {p}; }
        todo := todo - {p};
      }
    }

    method OnPong(ws: nat, now: int)
      modifies `sessions
      ensures sessions == Touched(old(sessions), watched, ws, now)
    {
      var todo := sessions.Keys;
      while todo != {}
        invariant todo <= sessions.Keys == old(sessions.Keys)
        invariant forall p :: p in sessions ==>
          sessions[p] == (
            if p !in todo && old(sessions)[p].ws == ws && (ws, p) in watched then Session(ws, now)
            else old(sessions)[p])
      {
        var p :| p in todo;
        if (ws, p) in watched && sessions[p].ws == ws { sessions := sessions[p := Session(ws, now)]; }
        todo := todo - {p};
      }
    }

    /** Bootstrap candidates, in random order. */
    method GetRandomPeers(excludeId: string, maxPeers: nat) returns (peers: seq<string>)
      ensures NoRepeats(peers) && forall x :: x in peers ==> x in sessions && x != excludeId
      ensures |peers| == maxPeers || (|peers| < maxPeers && forall x :: x in sessions && x != excludeId ==> x in peers)
    {
      var found: seq<string> := [];
      var todo := sessions.Keys - {excludeId};
      while todo != {}
        invariant todo <= sessions.Keys - {excludeId} && NoRepeats(found)
        invariant forall x :: x in found <==> x in sessions && x != excludeId && x !in todo
      {
        var x :| x in todo;
        found := found + [x];
        todo := todo - {x};
      }
      var ids := new string[|found|](i requires 0 <= i < |found| => found[i]);
      assert ids[..] == found;
      Shuffle(ids);
      peers := ids[..if ids.Length < maxPeers then ids.Length else maxPeers];
      assert forall x :: x in peers ==> x in ids[..];
      assert ids.Length <= maxPeers ==> peers == ids[..];
    }

    /** Sessions that have been silent for too long end; their sockets are to be terminated. */
    method CleanupPings(c: Config, now: int) returns (terminated: set<nat>)
      requires c.idleTimeout == idleTimeout
      modifies `sessions
      ensures terminated == IdleSockets(c, old(sessions), now)
      ensures sessions == map p | p in old(sessions) && !Idle(c, old(sessions)[p], now) :: old(sessions)[p]
    {
      terminated := {};
      var todo := sessions.Keys;
      while todo != {}
        invariant todo <= sessions.Keys <= old(sessions.Keys)
        invariant forall p :: p in old(sessions) ==>
          (p in sessions <==> p in todo || !Idle(c, old(sessions)[p], now))
          && (p in sessions ==> sessions[p] == old(sessions)[p])
        invariant forall ws :: ws in terminated <==>
          exists p :: p in old(sessions) && p !in todo && Idle(c, old(sessions)[p], now) && old(sessions)[p].ws == ws
      {
        var p :| p in todo;
        if now - sessions[p].lastActive > idleTimeout {
          terminated := terminated + {sessions[p].ws};
          sessions := sessions - {p};
        }
        todo := todo - {p};
      }
    }
  }

  class TrackerServer {
    const config: Config
    const manager: SessionManager
    var stopped: bool
    var sockets: map<nat, Ready>
    var conns: map<nat, Conn>
    var connections: set<nat>
    var perAddress: map<string, int>
    ghost var issued: map<nat, nat>
    ghost var registered: map<nat, Signature>

    ghost function View(): State
      reads this, manager
    {
      State(stopped, sockets, conns, connections, perAddress, manager.sessions, manager.watched, issued, registered)
    }

    ghost predicate Valid()
      reads this, manager
    {
      && manager.maxSessions == config.maxSessions && manager.idleTimeout == config.idleTimeout
      && Inv(config, View())
    }

    constructor (config: Config)
      ensures Valid() && View() == Init() && fresh(manager) && this.config == config
    {
      this.config := config;
      manager := new SessionManager(config.maxSessions, config.idleTimeout);
      stopped, sockets, conns, connections, perAddress := false, map[], map[], {}, map[];
      issued, registered := map[], map[];
      new;
      InvAtFirst(config);
    }

    method CloseWs(ws: nat)
      modifies `sockets
      ensures sockets == CloseSocket(old(sockets), ws)
    {
      if ws in sockets && sockets[ws] == Open { sockets := sockets[ws := Closing]; }
    }

    method Accept(ws: nat, address: string, host: Option<string>)
      requires Valid() && ws !in sockets && !stopped
      modifies this
      ensures Valid() && View() == After(config, old(View()), Event.Accept(ws, address, host))
      ensures var live := old(set v | v in connections && v in conns && conns[v].address == address);
        && (ws in connections <==> |live| < config.maxConnectionsPerAddress)
        && (ws in connections ==>
              ws in conns && conns[ws] == Conn(false, None, host, address, None, true) && sockets == old(sockets)[ws := Open])
        && (ws !in connections ==> conns == old(conns) && sockets == old(sockets)[ws := Closing])
    {
      hide Inv;
      EveryEventKeepsInv(config, View(), Event.Accept(ws, address, host));
      LiveAreCounted(config, View(), address);
      NewIsNotLive(config, View(), ws);
      var count := Count(perAddress, address);
      if count >= config.maxConnectionsPerAddress {
        sockets := sockets[ws := Closing];
        return;
      }
      sockets := sockets[ws := Open];
      perAddress := perAddress[address := count + 1];
      conns := conns[ws := Conn(false, None, host, address, None, true)];
      connections := connections + {ws};
    }

    /** Once the crypto library is ready; the nonce is random and does not occur twice. */
    method Hello(ws: nat, nonce: nat)
      requires Valid() && CanHappen(View(), Event.Hello(ws, nonce))
      modifies this
      ensures Valid() && View() == After(config, old(View()), Event.Hello(ws, nonce))
      ensures ws in conns && conns == old(conns)[ws := conns[ws]] && conns[ws].greeted
      ensures conns[ws].nonce == if old(sockets)[ws] == Open then Some(nonce) else old(conns)[ws].nonce
      ensures sockets == old(sockets) && manager.sessions == old(manager.sessions)
    {
      hide Inv;
      EveryEventKeepsInv(config, View(), Event.Hello(ws, nonce));
      conns := conns[ws := conns[ws].(greeted := true)];
      if sockets[ws] != Open { return; }
      conns := conns[ws := conns[ws].(nonce := Some(nonce))];
      issued := issued[ws := nonce];
      assert conns == old(conns)[ws := old(conns)[ws].(greeted := true, nonce := Some(nonce))];
    }

    method HandshakeTimeout(ws: nat)
      requires Valid() && CanHappen(View(), Event.HandshakeTimeout(ws))
      modifies this
      ensures Valid() && View() == After(config, old(View()), Event.HandshakeTimeout(ws))
      ensures conns == old(conns)[ws := old(conns)[ws].(timer := false)] && manager.sessions == old(manager.sessions)
      ensures conns[ws].peerId.None? && ws in sockets ==> sockets[ws] != Open
      ensures conns[ws].peerId.Some? ==> sockets == old(sockets)
    {
      hide Inv;
      EveryEventKeepsInv(config, View(), Event.HandshakeTimeout(ws));
      conns := conns[ws := conns[ws].(timer := false)];
      if conns[ws].peerId.None? { CloseWs(ws); }
    }

    method HandleJoin(ws: nat, msg: Join, allowed: bool, now: int) returns (refusal: Option<Refusal>, peers: seq<string>)
      requires Valid() && ws in conns && ws in sockets
      modifies this, manager
      ensures Valid() && View() == After(config, old(View()), JoinArrives(ws, msg, allowed, now))
      ensures refusal == JoinRefusal(config, old(View()), ws, msg, allowed)
      ensures JoinOutcome(config, old(conns[ws]), old(manager.sessions), old(sockets[ws]) == Open, msg, allowed, refusal,
        ws in conns && conns[ws].peerId == Some(msg.peerId))
      ensures peers != [] ==> ws in registered && registered[ws] == msg.sig && msg.peerId !in peers
      ensures ws in conns && (conns[ws].peerId.Some? && old(conns[ws].peerId).None? ==>
        Bootstraps(peers, manager.sessions, msg.peerId))
    {
      hide Inv, CloseSocket, JoinOutcome, AfterJoin, JoinRefusal, ScreenRefusal, Bootstraps;
      peers := [];
      EveryEventKeepsInv(config, View(), JoinArrives(ws, msg, allowed, now));
      JoinMeans(config, View(), ws, msg, allowed, now);
      RefusedAtOnce(config, View(), ws, msg, allowed, now);
      refusal := ScreenRefusal(config, conns[ws], msg, allowed);
      if refusal.Some? {
        if allowed && conns[ws].peerId.None? { CloseWs(ws); }
        return;
      }
      refusal, peers := ProveJoin(ws, msg, allowed, now);
    }

    /** Nothing was wrong with it so far: the nonce serves for this one attempt. */
    method ProveJoin(ws: nat, msg: Join, allowed: bool, now: int) returns (refusal: Option<Refusal>, peers: seq<string>)
      requires Valid() && ws in conns && ws in sockets && ScreenRefusal(config, conns[ws], msg, allowed).None?
      modifies this, manager
      ensures View() == AfterJoin(config, old(View()), ws, msg, allowed, now)
      ensures refusal == JoinRefusal(config, old(View()), ws, msg, allowed)
      ensures peers != [] ==> ws in registered && registered[ws] == msg.sig && msg.peerId !in peers
      ensures ws in conns && (conns[ws].peerId.Some? && old(conns[ws].peerId).None? ==>
        Bootstraps(peers, manager.sessions, msg.peerId))
    {
      hide Inv, CloseSocket, Registers, HostOk, Bootstraps;
      var nonce := conns[ws].nonce.value;
      NotItsOwnYet(config, View(), ws, msg.peerId);
      conns := conns[ws := conns[ws].(nonce := None)];
      assert View() == Spent(old(View()), ws);
      if msg.sig != Signature(nonce, msg.peerId, msg.host) {
        CloseWs(ws);
        return Some(BadSignature), [];
      }
      if sockets[ws] != Open { return None, []; }
      refusal, peers := RegisterJoin(ws, msg, now);
    }

    /** The signature holds: register, and answer with peers to connect to. */
    method RegisterJoin(ws: nat, msg: Join, now: int) returns (refusal: Option<Refusal>, peers: seq<string>)
      requires manager.maxSessions == config.maxSessions && ws in conns
      requires msg.peerId in manager.sessions ==> manager.sessions[msg.peerId].ws != ws
      modifies this, manager
      ensures View() ==
        if Full(config, old(View()), msg.peerId) then Closes(old(View()), ws) else Registers(old(View()), ws, msg, now)
      ensures refusal == if Full(config, old(View()), msg.peerId) then Some(AtCapacity) else None
      ensures peers != [] ==> ws in registered && registered[ws] == msg.sig && msg.peerId !in peers
      ensures ws in conns && (conns[ws].peerId.Some? && old(conns[ws].peerId).None? ==>
        Bootstraps(peers, manager.sessions, msg.peerId))
    {
      refusal, peers := None, [];
      var result := manager.RegisterSession(ws, msg.peerId, now);
      if result.Capacity? {
        CloseWs(ws);
        return Some(AtCapacity), [];
      }
      registered := registered[ws := msg.sig];
      conns := conns[ws := conns[ws].(peerId := Some(msg.peerId), timer := false)];
      if result.replaced.Some? && result.replaced.value != ws {
        var prior := result.replaced.value;
        if prior in connections && prior in conns { conns := conns[prior := conns[prior].(peerId := None)]; }
        CloseWs(prior);
      }
      peers := manager.GetRandomPeers(msg.peerId, PEERS_PER_JOIN);
    }

    /** Where a relay goes, if anywhere, and under whose name. */
    method HandleRelay(ws: nat, target: string, payload: string, allowed: bool) returns (sent: Option<(nat, string)>)
      requires Valid() && ws in conns
      modifies `sockets
      ensures Valid() && View() == After(config, old(View()), RelayArrives(ws, target, payload, allowed))
      ensures sent == old(Delivers(View(), ws, target, allowed))
      ensures var sender, sessions := old(conns[ws].peerId), manager.sessions;
        && (sender.None? ==> ws in old(sockets) && old(sockets[ws]) == Open ==> ws in sockets && sockets[ws] == Closing)
        && (sent.Some? <==> (
              && sender.Some? && allowed && target != sender.value && target in sessions
              && sessions[target].ws in old(sockets) && old(sockets[sessions[target].ws]) == Open))
        && (sent.Some? ==> sent.value == (sessions[target].ws, sender.value))
    {
      hide Inv;
      EveryEventKeepsInv(config, View(), RelayArrives(ws, target, payload, allowed));
      sent := None;
      if conns[ws].peerId.None? { CloseWs(ws); return; }
      var senderId := conns[ws].peerId.value;
      if !allowed || target == senderId { return; }
      if target !in manager.sessions { return; }
      var to := manager.sessions[target].ws;
      if to in sockets && sockets[to] == Open { sent := Some((to, senderId)); }
    }

    /** The close event: the server's listener first, then the session manager's. */
    method OnClose(ws: nat)
      requires Valid() && CanHappen(View(), Close(ws))
      modifies this, manager
      ensures Valid() && View() == After(config, old(View()), Close(ws))
      ensures ws !in connections && sockets == old(sockets)[ws := Closed]
      ensures forall p :: p in manager.sessions <==> p in old(manager.sessions) && old(manager.sessions)[p].ws != ws
      ensures forall p :: p in manager.sessions ==> manager.sessions[p] == old(manager.sessions)[p]
    {
      hide Inv;
      AllWatched(config, View());
      EveryEventKeepsInv(config, View(), Close(ws));
      sockets := sockets[ws := Closed];
      Release(ws);
      manager.OnClose(ws);
    }

    method Release(ws: nat)
      requires ws in conns
      modifies `connections, `conns, `perAddress
      ensures connections == old(connections) - {ws}
      ensures ws !in old(connections) ==> conns == old(conns) && perAddress == old(perAddress)
      ensures ws in old(connections) ==>
        conns == old(conns)[ws := old(conns)[ws].(timer := false)]
        && perAddress == Released(old(perAddress), old(conns)[ws].address)
    {
      if ws !in connections { return; }
      connections := connections - {ws};
      var address := conns[ws].address;
      conns := conns[ws := conns[ws].(timer := false)];
      var left := (if address in perAddress then perAddress[address] else 1) - 1;
      if left <= 0 { perAddress := perAddress - {address}; } else { perAddress := perAddress[address := left]; }
    }

    method OnPong(ws: nat, now: int)
      requires Valid()
      modifies manager
      ensures Valid() && View() == After(config, old(View()), Pong(ws, now))
      ensures manager.sessions.Keys == old(manager.sessions).Keys && forall p :: p in manager.sessions ==>
        var was := old(manager.sessions)[p];
        manager.sessions[p] == if was.ws == ws then Session(ws, now) else was
    {
      hide Inv;
      EveryEventKeepsInv(config, View(), Pong(ws, now));
      AllWatched(config, View());
      manager.OnPong(ws, now);
    }

    method CleanupPings(now: int)
      requires Valid()
      modifies this, manager
      ensures Valid() && View() == After(config, old(View()), Event.CleanupPings(now))
      ensures forall p :: p in manager.sessions <==>
        p in old(manager.sessions) && now - old(manager.sessions)[p].lastActive <= config.idleTimeout
      ensures forall p :: p in manager.sessions ==> manager.sessions[p] == old(manager.sessions)[p]
      ensures forall p :: p in old(manager.sessions) && p !in manager.sessions ==>
        var v := old(manager.sessions)[p].ws; v in sockets && sockets[v] != Open
    {
      hide Inv, IdleSockets, Terminated;
      EveryEventKeepsInv(config, View(), Event.CleanupPings(now));
      AllWatched(config, View());
      IdleAreTerminated(config, View(), now);
      var terminated := manager.CleanupPings(config, now);
      sockets := Terminated(sockets, terminated);
    }

    method Shutdown()
      requires Valid()
      modifies this, manager
      ensures Valid() && View() == After(config, old(View()), Event.Shutdown)
      ensures stopped && (!old(stopped) ==> connections == {} && perAddress == map[] && manager.sessions == map[])
    {
      hide Inv, Silenced, Terminated, After;
      EveryEventKeepsInv(config, View(), Event.Shutdown);
      ShutdownIs(config, View());
      if stopped { return; }
      stopped := true;
      sockets := Terminated(sockets, connections + (set p | p in manager.sessions :: manager.sessions[p].ws));
      conns := Silenced(conns, connections);
      connections, perAddress := {}, map[];
      manager.sessions := map[];
    }
  }

  /**
   * The tests of a join in their order, which refusal follows from which, and when the connection comes out joined:
   * it did not carry a peer id before, and passed them all.
   */
  ghost predicate JoinOutcome(
    config: Config, conn: Conn, sessions: map<string, Session>, open: bool, msg: Join, allowed: bool,
    refusal: Option<Refusal>, joined: bool)
  {
    var greeted := allowed && conn.peerId.None? && conn.nonce.Some?;
    var hostOk := msg.claimedHost.Some? && (
      if config.allowedHosts.Some? then msg.claimedHost.value in config.allowedHosts.value
      else conn.host == msg.claimedHost);
    var proven := greeted && msg.supported && hostOk && msg.claimValid;
    var signed := conn.nonce.Some? && msg.sig == Signature(conn.nonce.value, msg.peerId, msg.host);
    var room := msg.peerId in sessions || |sessions| < config.maxSessions;
    && (refusal == Some(RateLimited) <==> !allowed)
    && (refusal == Some(BadJoin) <==> allowed && !greeted)
    && (refusal == Some(UnsupportedVersion) <==> greeted && !msg.supported)
    && (refusal == Some(BadHost) <==> greeted && msg.supported && !hostOk)
    && (refusal == Some(InvalidIdentity) <==> greeted && msg.supported && hostOk && !msg.claimValid)
    && (refusal == Some(BadSignature) <==> proven && !signed)
    && (refusal == Some(AtCapacity) <==> proven && signed && open && !room)
    && (conn.peerId.None? ==> (joined <==> proven && signed && open && room))
  }

  lemma JoinMeans(c: Config, t: State, ws: nat, msg: Join, allowed: bool, now: int)
    requires ws in t.conns && ws in t.sockets
    ensures var u := AfterJoin(c, t, ws, msg, allowed, now);
      JoinOutcome(c, t.conns[ws], t.sessions, t.sockets[ws] == Open, msg, allowed, JoinRefusal(c, t, ws, msg, allowed),
        ws in u.conns && u.conns[ws].peerId == Some(msg.peerId))
  {
    hide CloseSocket, RegisteredConns;
    OwnIdIsSet(Spent(t, ws).conns, t.connections, Prior(t.sessions, ws, msg.peerId), ws, msg.peerId);
  }

  lemma RefusedAtOnce(c: Config, t: State, ws: nat, msg: Join, allowed: bool, now: int)
    requires ws in t.conns && ws in t.sockets
    ensures var early := ScreenRefusal(c, t.conns[ws], msg, allowed);
      var u := if allowed && t.conns[ws].peerId.None? then Closes(t, ws) else t;
      early.Some? ==> JoinRefusal(c, t, ws, msg, allowed) == early && AfterJoin(c, t, ws, msg, allowed, now) == u
  {
    hide HostOk, CloseSocket;
  }

  lemma ShutdownIs(c: Config, t: State)
    ensures After(c, t, Event.Shutdown) == AfterShutdown(t)
  {
  }

  lemma OwnIdIsSet(conns: map<nat, Conn>, connections: set<nat>, prior: Option<nat>, ws: nat, peerId: string)
    requires ws in conns && prior != Some(ws)
    ensures var done := RegisteredConns(conns, connections, prior, ws, peerId);
      ws in done && done[ws].peerId == Some(peerId)
  {
  }

  lemma LiveAreCounted(c: Config, t: State, address: string)
    requires Inv(c, t)
    ensures Count(t.perAddress, address) == |set v | v in t.connections && v in t.conns && t.conns[v].address == address|
  {
    hide SessionsOk, EntryOk;
    assert LiveAt(t, address) == set v | v in t.connections && v in t.conns && t.conns[v].address == address;
  }

  lemma NewIsNotLive(c: Config, t: State, ws: nat)
    requires Inv(c, t) && ws !in t.sockets
    ensures ws !in t.connections && ws !in t.conns
  {
    hide SessionsOk, CountsOk;
    assert EntryOk(At(t, ws));
  }

  /** Every session's socket is watched for pongs, and it is known. */
  lemma AllWatched(c: Config, t: State)
    requires Inv(c, t)
    ensures forall p :: p in t.sessions ==> (t.sessions[p].ws, p) in t.watched && t.sessions[p].ws in t.sockets
  {
    hide CountsOk;
    forall p | p in t.sessions ensures (t.sessions[p].ws, p) in t.watched && t.sessions[p].ws in t.sockets {
      assert Carries(t, t.sessions[p].ws, p);
      assert EntryOk(At(t, t.sessions[p].ws));
    }
  }

  lemma IdleAreTerminated(c: Config, t: State, now: int)
    requires forall p :: p in t.sessions ==> t.sessions[p].ws in t.sockets
    ensures var sockets := Terminated(t.sockets, IdleSockets(c, t.sessions, now));
      forall p :: p in t.sessions && Idle(c, t.sessions[p], now) ==>
        t.sessions[p].ws in sockets && sockets[t.sessions[p].ws] != Open
  {
    forall p | p in t.sessions && Idle(c, t.sessions[p], now)
      ensures t.sessions[p].ws in IdleSockets(c, t.sessions, now) { }
  }

  /** A connection without a peer id has no session, so registering it never meets its own. */
  lemma NotItsOwnYet(c: Config, t: State, ws: nat, p: string)
    requires Inv(c, t) && ws in t.conns && t.conns[ws].peerId.None?
    ensures !(p in t.sessions && t.sessions[p].ws == ws)
  {
    hide CountsOk;
    assert p in t.sessions ==> Carries(t, t.sessions[p].ws, p);
  }
}
