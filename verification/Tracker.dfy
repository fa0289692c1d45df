/**
 * The tracker's bookkeeping as a state machine: sockets and what is known about them, live connections counted per
 * address, and the sessions of registered nodes. Sockets and nonces are numbers; a signature is represented by what
 * it signs. The rate limiter's and the claim verifier's answers are part of the events.
 */
module Tracker {
  import opened Wrappers

  datatype Ready = Open | Closing | Closed

  datatype Conn = Conn(
    greeted: bool, nonce: Option<nat>, host: Option<string>, address: string, peerId: Option<string>, timer: bool)

  datatype Session = Session(ws: nat, lastActive: int)

  /** A signature by the owner of peerId. */
  datatype Signature = Signature(nonce: nat, peerId: string, host: string)

  datatype Config = Config(
    maxConnectionsPerAddress: nat, maxSessions: nat, idleTimeout: int, allowedHosts: Option<set<string>>)

  /** `watched` are the close and pong listeners that registering adds; the last two fields are history. */
  datatype State = State(
    stopped: bool, sockets: map<nat, Ready>, conns: map<nat, Conn>, connections: set<nat>, perAddress: map<string, int>,
    sessions: map<string, Session>, watched: set<(nat, string)>,
    issued: map<nat, nat>, registered: map<nat, Signature>)

  datatype Join = Join(
    supported: bool, host: string, claimedHost: Option<string>, peerId: string, claimValid: bool, sig: Signature)

  datatype Event =
    | Accept(ws: nat, address: string, host: Option<string>)
    | Hello(ws: nat, nonce: nat)
    | HandshakeTimeout(ws: nat)
    | BadMessage(ws: nat)
    | JoinArrives(ws: nat, msg: Join, allowed: bool, now: int)
    | RelayArrives(ws: nat, target: string, payload: string, allowed: bool)
    | Pong(ws: nat, now: int)
    | CloseBegins(ws: nat)
    | Close(ws: nat)
    | CleanupPings(now: int)
    | Shutdown

  function Init(): State {
    State(false, map[], map[], {}, map[], map[], {}, map[], map[])
  }

  /** ws.close() and ws.terminate(): the close event comes later. */
  function CloseSocket(sockets: map<nat, Ready>, ws: nat): map<nat, Ready> {
    if ws in sockets && sockets[ws] == Open then sockets[ws := Closing] else sockets
  }

  function Closes(t: State, ws: nat): State {
    t.(sockets := CloseSocket(t.sockets, ws))
  }

  function Count(perAddress: map<string, int>, address: string): int {
    if address in perAddress then perAddress[address] else 0
  }

  function AfterAccept(c: Config, t: State, ws: nat, address: string, host: Option<string>): State {
    if Count(t.perAddress, address) >= c.maxConnectionsPerAddress then t.(sockets := t.sockets[ws := Closing])
    else t.(
      sockets := t.sockets[ws := Open],
      perAddress := t.perAddress[address := Count(t.perAddress, address) + 1],
      conns := t.conns[ws := Conn(false, None, host, address, None, true)],
      connections := t.connections + {ws})
  }

  function AfterHello(t: State, ws: nat, nonce: nat): State
    requires ws in t.conns && ws in t.sockets
  {
    if t.sockets[ws] != Open then t.(conns := t.conns[ws := t.conns[ws].(greeted := true)])
    else t.(conns := t.conns[ws := t.conns[ws].(greeted := true, nonce := Some(nonce))], issued := t.issued[ws := nonce])
  }

  function AfterTimeout(t: State, ws: nat): State
    requires ws in t.conns
  {
    t.(conns := t.conns[ws := t.conns[ws].(timer := false)],
       sockets := if t.conns[ws].peerId.None? then CloseSocket(t.sockets, ws) else t.sockets)
  }

  predicate HostOk(c: Config, conn: Conn, claimed: Option<string>) {
    && claimed.Some?
    && if c.allowedHosts.Some? then claimed.value in c.allowedHosts.value else conn.host == claimed
  }

  /** What a join meets before its nonce is used up. */
  datatype Verdict = Pass | SendError | Reject

  function Screen(c: Config, conn: Conn, msg: Join, allowed: bool): Verdict {
    if !allowed then SendError
    else if conn.peerId.Some? then SendError
    else if conn.nonce.None? then Reject
    else if !msg.supported then Reject
    else if !HostOk(c, conn, msg.claimedHost) then Reject
    else if !msg.claimValid then Reject
    else Pass
  }

  predicate Full(c: Config, t: State, peerId: string) {
    peerId !in t.sessions && |t.sessions| >= c.maxSessions
  }

  /** The live connection that has the session of peerId already, other than ws. */
  function Prior(sessions: map<string, Session>, ws: nat, peerId: string): Option<nat> {
    if peerId in sessions && sessions[peerId].ws != ws then Some(sessions[peerId].ws) else None
  }

  function RegisteredConns(
    conns: map<nat, Conn>, connections: set<nat>, prior: Option<nat>, ws: nat, peerId: string): map<nat, Conn>
    requires ws in conns
  {
    var done := conns[ws := conns[ws].(peerId := Some(peerId), timer := false)];
    if prior.Some? && prior.value in connections && prior.value in conns
    then done[prior.value := done[prior.value].(peerId := None)] else done
  }

  /** Registered: the session is ws's, and whichever other socket had it is told to close. */
  function Registers(t: State, ws: nat, msg: Join, now: int): State
    requires ws in t.conns
  {
    var prior := Prior(t.sessions, ws, msg.peerId);
    t.(conns := RegisteredConns(t.conns, t.connections, prior, ws, msg.peerId),
       sockets := if prior.Some? then CloseSocket(t.sockets, prior.value) else t.sockets,
       sessions := t.sessions[msg.peerId := Session(ws, now)],
       watched := t.watched + {(ws, msg.peerId)},
       registered := t.registered[ws := msg.sig])
  }

  /** The nonce serves once, whatever the outcome. */
  function Spent(t: State, ws: nat): State
    requires ws in t.conns
  {
    t.(conns := t.conns[ws := t.conns[ws].(nonce := None)])
  }

  function AfterJoin(c: Config, t: State, ws: nat, msg: Join, allowed: bool, now: int): State
    requires ws in t.conns && ws in t.sockets
  {
    match Screen(c, t.conns[ws], msg, allowed)
    case SendError => t
    case Reject => Closes(t, ws)
    case Pass =>
      var spent := Spent(t, ws);
      if msg.sig != Signature(t.conns[ws].nonce.value, msg.peerId, msg.host) then Closes(spent, ws)
      else if t.sockets[ws] != Open then spent
      else if Full(c, t, msg.peerId) then Closes(spent, ws)
      else Registers(spent, ws, msg, now)
  }

  /** What a client is told when its join is refused. */
  datatype Refusal = RateLimited | BadJoin | UnsupportedVersion | BadHost | InvalidIdentity | BadSignature | AtCapacity

  function ScreenRefusal(c: Config, conn: Conn, msg: Join, allowed: bool): Option<Refusal> {
    if !allowed then Some(RateLimited)
    else if conn.peerId.Some? || conn.nonce.None? then Some(BadJoin)
    else if !msg.supported then Some(UnsupportedVersion)
    else if !HostOk(c, conn, msg.claimedHost) then Some(BadHost)
    else if !msg.claimValid then Some(InvalidIdentity)
    else None
  }

  function JoinRefusal(c: Config, t: State, ws: nat, msg: Join, allowed: bool): Option<Refusal>
    requires ws in t.conns && ws in t.sockets
  {
    var early := ScreenRefusal(c, t.conns[ws], msg, allowed);
    if early.Some? then early
    else if msg.sig != Signature(t.conns[ws].nonce.value, msg.peerId, msg.host) then Some(BadSignature)
    else if t.sockets[ws] == Open && Full(c, t, msg.peerId) then Some(AtCapacity)
    else None
  }

  function AfterRelay(t: State, ws: nat): State
    requires ws in t.conns
  {
    if t.conns[ws].peerId.None? then Closes(t, ws) else t
  }

  /** To which socket a relay goes, and under whose name. */
  function Delivers(t: State, ws: nat, target: string, allowed: bool): Option<(nat, string)>
    requires ws in t.conns
  {
    var sender := t.conns[ws].peerId;
    if sender.Some? && allowed && target != sender.value && target in t.sessions
       && t.sessions[target].ws in t.sockets && t.sockets[t.sessions[target].ws] == Open
    then Some((t.sessions[target].ws, sender.value)) else None
  }

  function Touched(sessions: map<string, Session>, watched: set<(nat, string)>, ws: nat, now: int): map<string, Session> {
    map p | p in sessions :: if sessions[p].ws == ws && (ws, p) in watched then Session(ws, now) else sessions[p]
  }

  function AfterPong(t: State, ws: nat, now: int): State {
    t.(sessions := Touched(t.sessions, t.watched, ws, now))
  }

  function Released(perAddress: map<string, int>, address: string): map<string, int> {
    var left := (if address in perAddress then perAddress[address] else 1) - 1;
    if left <= 0 then perAddress - {address} else perAddress[address := left]
  }

  function Dropped(sessions: map<string, Session>, watched: set<(nat, string)>, ws: nat): map<string, Session> {
    map p | p in sessions && !(sessions[p].ws == ws && (ws, p) in watched) :: sessions[p]
  }

  /** The close event: release(ws, conn), then the listener that registering added. */
  function AfterClose(t: State, ws: nat): State
    requires ws in t.conns && ws in t.sockets
  {
    t.(sockets := t.sockets[ws := Closed],
       connections := t.connections - {ws},
       conns := if ws in t.connections then t.conns[ws := t.conns[ws].(timer := false)] else t.conns,
       perAddress := if ws in t.connections then Released(t.perAddress, t.conns[ws].address) else t.perAddress,
       sessions := Dropped(t.sessions, t.watched, ws))
  }

  predicate Idle(c: Config, s: Session, now: int) {
    now - s.lastActive > c.idleTimeout
  }

  function IdleSockets(c: Config, sessions: map<string, Session>, now: int): set<nat> {
    set p | p in sessions && Idle(c, sessions[p], now) :: sessions[p].ws
  }

  function Terminated(sockets: map<nat, Ready>, which: set<nat>): map<nat, Ready> {
    map ws | ws in sockets :: if ws in which && sockets[ws] == Open then Closing else sockets[ws]
  }

  function AfterCleanup(c: Config, t: State, now: int): State {
    t.(sockets := Terminated(t.sockets, IdleSockets(c, t.sessions, now)),
       sessions := map p | p in t.sessions && !Idle(c, t.sessions[p], now) :: t.sessions[p])
  }

  function Silenced(conns: map<nat, Conn>, which: set<nat>): map<nat, Conn> {
    map ws | ws in conns :: if ws in which then conns[ws].(timer := false) else conns[ws]
  }

  function AfterShutdown(t: State): State {
    if t.stopped then t else
      t.(stopped := true,
         sockets := Terminated(t.sockets, t.connections + (set p | p in t.sessions :: t.sessions[p].ws)),
         conns := Silenced(t.conns, t.connections),
         connections := {}, perAddress := map[], sessions := map[])
  }

  /** Which events can happen: sockets are new when accepted, a hello is sent once and with a fresh nonce, and so on. */
  ghost predicate CanHappen(t: State, e: Event) {
    match e
    case Accept(ws, _, _) => ws !in t.sockets && !t.stopped
    case Hello(ws, nonce) => ws in t.conns && ws in t.sockets && !t.conns[ws].greeted && nonce !in t.issued.Values
    case HandshakeTimeout(ws) => ws in t.conns && t.conns[ws].timer
    case BadMessage(ws) => ws in t.conns
    case JoinArrives(ws, _, _, _) => ws in t.conns && ws in t.sockets
    case RelayArrives(ws, _, _, _) => ws in t.conns
    case Pong(_, _) => true
    case CloseBegins(_) => true
    case Close(ws) => ws in t.conns && ws in t.sockets && t.sockets[ws] != Closed
    case CleanupPings(_) => true
    case Shutdown => true
  }

  ghost function After(c: Config, t: State, e: Event): State
    requires CanHappen(t, e)
  {
    match e
    case Accept(ws, address, host) => AfterAccept(c, t, ws, address, host)
    case Hello(ws, nonce) => AfterHello(t, ws, nonce)
    case HandshakeTimeout(ws) => AfterTimeout(t, ws)
    case BadMessage(ws) => Closes(t, ws)
    case JoinArrives(ws, msg, allowed, now) => AfterJoin(c, t, ws, msg, allowed, now)
    case RelayArrives(ws, _, _, _) => AfterRelay(t, ws)
    case Pong(ws, now) => AfterPong(t, ws, now)
    case CloseBegins(ws) => Closes(t, ws)
    case Close(ws) => AfterClose(t, ws)
    case CleanupPings(now) => AfterCleanup(c, t, now)
    case Shutdown => AfterShutdown(t)
  }

  /** Everything known about one socket. */
  datatype Entry = Entry(
    ready: Option<Ready>, conn: Option<Conn>, live: bool, issued: Option<nat>, registered: Option<Signature>)

  function Get<K, V>(m: map<K, V>, k: K): Option<V> {
    if k in m then Some(m[k]) else None
  }

  function At(t: State, ws: nat): Entry {
    Entry(Get(t.sockets, ws), Get(t.conns, ws), ws in t.connections, Get(t.issued, ws), Get(t.registered, ws))
  }

  /** A live connection has a record and its socket is not closed; an open socket of a connection is live. */
  predicate SocketOk(e: Entry) {
    && (e.live ==> e.conn.Some?)
    && (e.conn.Some? ==> e.ready.Some?)
    && (e.live ==> e.ready != Some(Closed))
    && (e.conn.Some? && e.ready == Some(Open) ==> e.live)
  }

  /** A nonce serves for one attempt, and the peer id of a connection is the one it proved with its own nonce. */
  predicate ProofOk(e: Entry) {
    && (e.issued.Some? ==> e.conn.Some? && e.conn.value.greeted)
    && (e.registered.Some? ==> e.issued == Some(e.registered.value.nonce))
    && (e.conn.Some? && e.conn.value.nonce.Some? ==> e.issued == e.conn.value.nonce && e.registered.None?)
    && (e.conn.Some? && e.conn.value.peerId.Some? ==>
          e.registered.Some? && Some(e.registered.value.peerId) == e.conn.value.peerId)
  }

  /** Who does not register in time is disconnected: an open connection without a peer id has its timer running. */
  predicate TimerOk(e: Entry) {
    e.conn.Some? && e.ready == Some(Open) && e.conn.value.peerId.None? ==> e.conn.value.timer
  }

  predicate EntryOk(e: Entry) {
    SocketOk(e) && ProofOk(e) && TimerOk(e)
  }

  ghost function LiveAt(t: State, address: string): set<nat> {
    set ws | ws in t.connections && AddressOf(At(t, ws)) == Some(address)
  }

  function AddressOf(e: Entry): Option<string> {
    if e.conn.Some? then Some(e.conn.value.address) else None
  }

  /** The count of an address is the number of its live connections, within the cap. */
  ghost predicate CountsOk(c: Config, t: State) {
    && (forall a :: a in t.perAddress ==> t.perAddress[a] > 0)
    && (forall a :: Count(t.perAddress, a) == |LiveAt(t, a)| <= c.maxConnectionsPerAddress)
  }

  predicate IsAs(e: Entry, p: string) {
    e.conn.Some? && e.conn.value.peerId == Some(p)
  }

  /** ws is a live connection registered as p, and its close will be noticed. */
  predicate Carries(t: State, ws: nat, p: string) {
    At(t, ws).live && IsAs(At(t, ws), p) && (ws, p) in t.watched
  }

  predicate OpenAs(t: State, ws: nat, p: string) {
    At(t, ws).ready == Some(Open) && IsAs(At(t, ws), p)
  }

  /** Every session's socket is a live connection registered as that peer, and an open one that is has its session. */
  ghost predicate SessionsOk(t: State) {
    && (forall p :: p in t.sessions ==> Carries(t, t.sessions[p].ws, p))
    && (forall ws, p :: OpenAs(t, ws, p) ==> p in t.sessions && t.sessions[p].ws == ws)
  }

  ghost predicate NoncesDiffer(issued: map<nat, nat>) {
    forall v, w :: v in issued && w in issued && issued[v] == issued[w] ==> v == w
  }

  ghost predicate Inv(c: Config, t: State) {
    && (forall ws :: EntryOk(At(t, ws)))
    && NoncesDiffer(t.issued)
    && |t.sessions| <= c.maxSessions
    && SessionsOk(t)
    && CountsOk(c, t)
  }
}
