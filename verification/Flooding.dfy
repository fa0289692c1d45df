/**
 * The whole network of relay actors over a fixed graph of verified links: messages in flight are received one at a
 * time in any order, each with the verdicts of the rate limiter and of packet validation, and no cache entry expires.
 * Packets may also enter from outside as Stem messages, at any time and any number of times.
 */
module Flooding {
  import opened Sets
  import opened StableOrder
  import opened Ring
  import opened Links
  import opened Search
  import opened GossipRelay
  import opened Wrappers

  datatype Msg = Msg(kind: Kind, src: nat, dst: nat, packet: string)

  /** `sent` and `received` are the history of messages; `mailbox` and `floods` that of mailbox entries and broadcasts. */
  datatype Net = Net(
    actors: map<nat, Actor>, flight: multiset<Msg>, sent: multiset<Msg>, received: multiset<Msg>,
    mailbox: multiset<(nat, string)>, floods: multiset<(nat, string)>)

  /** What happens next: a Stem message enters, or a message in flight is received. */
  datatype Event =
    | Enter(src: nat, dst: nat, packet: string)
    | Receive(msg: Msg, allowed: bool, valid: bool, coin: bool, next: nat)

  function Start(g: Graph): Net {
    Net(map v | v in g :: Actor(g[v], {}, {}), multiset{}, multiset{}, multiset{}, multiset{}, multiset{})
  }

  function Fan(src: nat, targets: set<nat>, packet: string): set<Msg> {
    set t | t in targets :: Msg(Gossip, src, t, packet)
  }

  /** The messages that a command of node v puts in flight; `next` is the random choice of the peer manager. */
  function Outgoing(v: nat, verified: set<nat>, command: Command, packet: string, next: nat): set<Msg> {
    match command
    case Silence => {}
    case Broadcast(exclude) => Fan(v, BroadcastTargets(verified, exclude), packet)
    case ForwardStem(from) => if next in verified && next != from then {Msg(Stem, v, next, packet)} else {}
  }

  predicate Possible(g: Graph, n: Net, e: Event) {
    match e
    case Enter(src, dst, packet) => dst in g && src in g[dst]
    case Receive(msg, _, _, _, _) => msg in n.flight && msg.dst in n.actors
  }

  function After(g: Graph, n: Net, e: Event): Net
    requires Possible(g, n, e)
  {
    match e
    case Enter(src, dst, packet) =>
      var m := Msg(Stem, src, dst, packet);
      n.(flight := n.flight + multiset{m}, sent := n.sent + multiset{m})
    case Receive(msg, allowed, valid, coin, next) =>
      var v := msg.dst;
      var o := Handle(n.actors[v], msg.src, msg.kind, msg.packet, allowed, valid, coin);
      var out := multiset(Outgoing(v, n.actors[v].verified, o.command, msg.packet, next));
      Net(n.actors[v := o.actor],
          n.flight - multiset{msg} + out,
          n.sent + out,
          n.received + multiset{msg},
          n.mailbox + (if o.toMailbox then multiset{(v, msg.packet)} else multiset{}),
          n.floods + (if o.command.Broadcast? then multiset{(v, msg.packet)} else multiset{}))
  }

  /** A run: every event is possible when it happens. */
  ghost predicate Runs(g: Graph, n: Net, run: seq<Event>)
    decreases |run|
  {
    run == [] || (Possible(g, n, run[0]) && Runs(g, After(g, n, run[0]), run[1..]))
  }

  ghost function End(g: Graph, n: Net, run: seq<Event>): Net
    requires Runs(g, n, run)
    decreases |run|
  {
    if run == [] then n else End(g, After(g, n, run[0]), run[1..])
  }

  predicate HasFlooded(n: Net, v: nat, packet: string) {
    v in n.actors && packet in n.actors[v].flooded
  }

  /** Messages and links: who sent what, and that no link carries the same Gossip packet twice. */
  ghost predicate Traffic(g: Graph, n: Net) {
    && n.sent == n.received + n.flight
    && (forall m :: m in n.sent ==> m.src in g && m.dst in g[m.src])
    && (forall m :: m in n.sent && m.kind == Gossip ==> n.sent[m] == 1 && HasFlooded(n, m.src, m.packet))
  }

  /** Every neighbour of a node that flooded a packet has flooded it too or is about to receive it. */
  ghost predicate Spread(g: Graph, n: Net) {
    forall u, v, p :: HasFlooded(n, u, p) && Linked(g, u, v) ==> HasFlooded(n, v, p) || Msg(Gossip, u, v, p) in n.flight
  }

  /** Mailbox entries and broadcasts, one of each per node and flooded packet. */
  ghost predicate OnceEach(g: Graph, n: Net) {
    && n.actors.Keys == g.Keys
    && (forall v :: v in g ==> n.actors[v].verified == g[v] && n.actors[v].delivered == n.actors[v].flooded)
    && (forall v, p :: n.mailbox[(v, p)] == (if HasFlooded(n, v, p) then 1 else 0))
    && (forall v, p :: n.floods[(v, p)] == (if HasFlooded(n, v, p) then 1 else 0))
  }

  /** What holds whatever the verdicts are. */
  ghost predicate Safe(g: Graph, n: Net) {
    Traffic(g, n) && OnceEach(g, n)
  }

  ghost predicate Inv(g: Graph, n: Net) {
    Safe(g, n) && Spread(g, n)
  }

  /** No Gossip message is turned away. */
  predicate Heard(e: Event) {
    e.Receive? && e.msg.kind == Gossip ==> e.allowed && e.valid
  }

  predicate Accepted(e: Event) {
    e.Receive? && e.allowed && e.valid
  }

  lemma StartIsInv(g: Graph)
    requires Mutual(g)
    ensures Inv(g, Start(g))
  {
  }

  lemma EnterKeepsSafe(g: Graph, n: Net, e: Event)
    requires Mutual(g) && Safe(g, n) && e.Enter? && Possible(g, n, e)
    ensures Safe(g, After(g, n, e)) && (Spread(g, n) ==> Spread(g, After(g, n, e)))
  {
    assert Linked(g, e.dst, e.src) && Linked(g, e.src, e.dst);
  }

  lemma ReceiveKeepsSafe(g: Graph, n: Net, e: Event)
    requires Mutual(g) && Safe(g, n) && e.Receive? && Possible(g, n, e)
    ensures Safe(g, After(g, n, e))
  {
    ReceiveKeepsTraffic(g, n, e);
    ReceiveKeepsOnceEach(g, n, e);
  }

  /** What receiving a message does to the node that receives it. */
  lemma Received(g: Graph, n: Net, e: Event)
    requires Mutual(g) && Safe(g, n) && e.Receive? && Possible(g, n, e)
    ensures var v, p := e.msg.dst, e.msg.packet;
      var o := Handle(n.actors[v], e.msg.src, e.msg.kind, p, e.allowed, e.valid, e.coin);
      && v in g && e.msg.src in g[v] && n.actors[v].verified == g[v]
      && o.actor.verified == g[v] && o.actor.delivered == o.actor.flooded
      && (o.command.ForwardStem? ==> !o.toMailbox && o.actor == n.actors[v] && e.msg.kind == Stem && Accepted(e))
      && (o.command.Silence? ==> !o.toMailbox && o.actor == n.actors[v] && (Accepted(e) ==> HasFlooded(n, v, p)))
      && (o.command.Broadcast? ==> (
            o.toMailbox && Accepted(e) && !HasFlooded(n, v, p) && o.actor.flooded == n.actors[v].flooded + {p}
            && o.command.exclude == (if e.msg.kind == Gossip then Some(e.msg.src) else None)))
  {
    assert e.msg in n.sent;
    assert Linked(g, e.msg.src, e.msg.dst) && Linked(g, e.msg.dst, e.msg.src);
  }

  lemma FloodedAfter(g: Graph, n: Net, e: Event, u: nat, q: string)
    requires Mutual(g) && Safe(g, n) && e.Receive? && Possible(g, n, e)
    ensures var o := Handle(n.actors[e.msg.dst], e.msg.src, e.msg.kind, e.msg.packet, e.allowed, e.valid, e.coin);
      HasFlooded(After(g, n, e), u, q) <==>
        HasFlooded(n, u, q) || (o.command.Broadcast? && u == e.msg.dst && q == e.msg.packet)
  {
    hide Safe;
    Received(g, n, e);
  }

  lemma ReceiveKeepsTraffic(g: Graph, n: Net, e: Event)
    requires Mutual(g) && Safe(g, n) && e.Receive? && Possible(g, n, e)
    ensures Traffic(g, After(g, n, e))
  {
    var n' := After(g, n, e);
    var v, p := e.msg.dst, e.msg.packet;
    var o := Handle(n.actors[v], e.msg.src, e.msg.kind, p, e.allowed, e.valid, e.coin);
    var out := Outgoing(v, n.actors[v].verified, o.command, p, e.next);
    Received(g, n, e);
    assert n'.sent == n'.received + n'.flight;
    forall m | m in n'.sent
      ensures m.src in g && m.dst in g[m.src] && (m.kind == Gossip ==> n'.sent[m] == 1 && HasFlooded(n', m.src, m.packet))
    {
      hide Handle;
      FloodedAfter(g, n, e, m.src, m.packet);
      if m in out { assert m.src == v && m.packet == p; }
    }
  }

  lemma ReceiveKeepsSpread(g: Graph, n: Net, e: Event)
    requires Mutual(g) && Inv(g, n) && e.Receive? && Possible(g, n, e) && Heard(e)
    ensures Spread(g, After(g, n, e))
  {
    var n' := After(g, n, e);
    Received(g, n, e);
    forall u, w, q | HasFlooded(n', u, q) && Linked(g, u, w)
      ensures HasFlooded(n', w, q) || Msg(Gossip, u, w, q) in n'.flight
    {
      hide Handle;
      FloodedAfter(g, n, e, u, q);
      FloodedAfter(g, n, e, w, q);
      if HasFlooded(n, u, q) {
        assert Msg(Gossip, u, w, q) in n.flight ==> Msg(Gossip, u, w, q) in n'.flight || Msg(Gossip, u, w, q) == e.msg;
      } else if e.msg.kind == Gossip && w == e.msg.src {
        assert e.msg in n.sent;
      } else {
        assert Msg(Gossip, u, w, q) in Fan(u, BroadcastTargets(g[u], if e.msg.kind == Gossip then Some(e.msg.src) else None), q);
      }
    }
  }

  lemma ReceiveKeepsOnceEach(g: Graph, n: Net, e: Event)
    requires Mutual(g) && Safe(g, n) && e.Receive? && Possible(g, n, e)
    ensures OnceEach(g, After(g, n, e))
  {
    Received(g, n, e);
    forall v, p
      ensures var n' := After(g, n, e);
        n'.mailbox[(v, p)] == (if HasFlooded(n', v, p) then 1 else 0)
        && n'.floods[(v, p)] == (if HasFlooded(n', v, p) then 1 else 0)
    {
      FloodedAfter(g, n, e, v, p);
    }
  }

  lemma StepKeepsSafe(g: Graph, n: Net, e: Event)
    requires Mutual(g) && Safe(g, n) && Possible(g, n, e)
    ensures Safe(g, After(g, n, e))
  {
    if e.Enter? { EnterKeepsSafe(g, n, e); } else { ReceiveKeepsSafe(g, n, e); }
  }

  lemma StepKeepsInv(g: Graph, n: Net, e: Event)
    requires Mutual(g) && Inv(g, n) && Possible(g, n, e) && Heard(e)
    ensures Inv(g, After(g, n, e))
  {
    hide Safe;
    StepKeepsSafe(g, n, e);
    if e.Enter? { EnterKeepsSafe(g, n, e); } else { ReceiveKeepsSpread(g, n, e); }
  }

  lemma {:induction false} EveryRunKeepsSafe(g: Graph, n: Net, run: seq<Event>)
    requires Mutual(g) && Safe(g, n) && Runs(g, n, run)
    ensures Safe(g, End(g, n, run))
    decreases |run|
  {
    hide Safe;
    if run != [] {
      StepKeepsSafe(g, n, run[0]);
      EveryRunKeepsSafe(g, After(g, n, run[0]), run[1..]);
    }
  }

  lemma {:induction false} EveryRunKeepsInv(g: Graph, n: Net, run: seq<Event>)
    requires Mutual(g) && Inv(g, n) && Runs(g, n, run) && forall e :: e in run ==> Heard(e)
    ensures Inv(g, End(g, n, run))
    decreases |run|
  {
    hide Inv, Heard;
    if run != [] {
      StepKeepsInv(g, n, run[0]);
      EveryRunKeepsInv(g, After(g, n, run[0]), run[1..]);
    }
  }

  // What one message does, in terms of the messages sent

  /** The node passes the packet on to all its neighbours, the sender of a Gossip message excepted. */
  ghost predicate SendsOn(g: Graph, e: Event, m: Msg)
    requires e.Receive? && e.msg.dst in g
  {
    && m.kind == Gossip && m.src == e.msg.dst && m.packet == e.msg.packet && m.dst in g[e.msg.dst]
    && (e.msg.kind == Gossip ==> m.dst != e.msg.src)
  }

  /**
   * A message that is turned away, or whose packet the node has flooded, sends nothing on, unless it is a Stem message
   * that goes on to one other neighbour. Any other puts the packet into the mailbox and sends it to everybody but, for a
   * Gossip message, its sender.
   */
  lemma WhatIsSent(g: Graph, n: Net, e: Event, m: Msg)
    requires Mutual(g) && Safe(g, n) && e.Receive? && Possible(g, n, e)
    ensures var v, n' := e.msg.dst, After(g, n, e);
      var forwards := e.msg.kind == Stem && !e.coin && exists p :: p in g[v] && p != e.msg.src;
      && v in g
      && n'.sent[m] - n.sent[m] == (
          if !(e.allowed && e.valid) then 0
          else if forwards then
            if m == Msg(Stem, v, e.next, e.msg.packet) && e.next in g[v] && e.next != e.msg.src then 1 else 0
          else if HasFlooded(n, v, e.msg.packet) then 0
          else if SendsOn(g, e, m) then 1 else 0)
      && n'.mailbox == n.mailbox + (
          if e.allowed && e.valid && !forwards && !HasFlooded(n, v, e.msg.packet)
          then multiset{(v, e.msg.packet)} else multiset{})
  {
    Received(g, n, e);
  }

  lemma {:induction false} FloodedWasAccepted(g: Graph, n: Net, run: seq<Event>, v: nat, packet: string)
    requires Mutual(g) && Safe(g, n) && Runs(g, n, run) && !HasFlooded(n, v, packet)
    requires HasFlooded(End(g, n, run), v, packet)
    ensures exists e :: e in run && Accepted(e) && e.msg.dst == v && e.msg.packet == packet
    decreases |run|
  {
    hide Safe, After;
    if run != [] {
      StepKeepsSafe(g, n, run[0]);
      if HasFlooded(After(g, n, run[0]), v, packet) {
        NewlyFlooded(g, n, run[0], v, packet);
        assert run[0] in run;
      } else {
        FloodedWasAccepted(g, After(g, n, run[0]), run[1..], v, packet);
        var e :| e in run[1..] && Accepted(e) && e.msg.dst == v && e.msg.packet == packet;
        assert e in run;
      }
    }
  }

  /**
   * Whatever run there was: a node has stored or broadcast a packet only if it received it from a sender within its rate
   * and found it valid.
   */
  lemma OnlyValidIsStored(g: Graph, run: seq<Event>, v: nat, packet: string)
    requires Mutual(g) && Runs(g, Start(g), run)
    requires var n := End(g, Start(g), run); n.mailbox[(v, packet)] > 0 || n.floods[(v, packet)] > 0
    ensures exists e :: e in run && e.Receive? && e.allowed && e.valid && e.msg.dst == v && e.msg.packet == packet
  {
    StartIsInv(g);
    EveryRunKeepsSafe(g, Start(g), run);
    FloodedWasAccepted(g, Start(g), run, v, packet);
    var e :| e in run && Accepted(e) && e.msg.dst == v && e.msg.packet == packet;
  }

  lemma NewlyFlooded(g: Graph, n: Net, e: Event, v: nat, packet: string)
    requires Mutual(g) && Safe(g, n) && Possible(g, n, e) && !HasFlooded(n, v, packet)
    requires HasFlooded(After(g, n, e), v, packet)
    ensures Accepted(e) && e.msg.dst == v && e.msg.packet == packet
  {
    hide Safe;
    if e.Receive? {
      Received(g, n, e);
      FloodedAfter(g, n, e, v, packet);
    }
  }

  /** No Gossip message with this packet is on its way. */
  ghost predicate Quiet(n: Net, packet: string) {
    forall m :: m in n.flight && m.kind == Gossip ==> m.packet != packet
  }

  /**
   * Coverage, exactly once. After any run that turned no Gossip message away and has left none with the packet in flight,
   * every node that verified links connect to a node that flooded it has flooded it too: one broadcast, one mailbox entry.
   */
  lemma QuietMeansCovered(g: Graph, run: seq<Event>, packet: string, a: nat, b: nat)
    requires Mutual(g) && Runs(g, Start(g), run) && Reachable(g, a, b) && forall e :: e in run ==> Heard(e)
    requires Quiet(End(g, Start(g), run), packet) && HasFlooded(End(g, Start(g), run), a, packet)
    ensures var n := End(g, Start(g), run);
      HasFlooded(n, b, packet) && n.floods[(b, packet)] == 1 && n.mailbox[(b, packet)] == 1
  {
    var n := End(g, Start(g), run);
    StartIsInv(g);
    EveryRunKeepsInv(g, Start(g), run);
    var d: nat :| b in Ball(g, a, d);
    FloodCoversBall(g, n, packet, a, d, b);
  }

  lemma {:induction false} FloodCoversBall(g: Graph, n: Net, packet: string, a: nat, d: nat, b: nat)
    requires Inv(g, n) && Quiet(n, packet) && HasFlooded(n, a, packet) && b in Ball(g, a, d)
    ensures HasFlooded(n, b, packet)
  {
    if d > 0 && b !in Ball(g, a, d - 1) {
      var u :| u in Ball(g, a, d - 1) && b in Out(g, u);
      FloodCoversBall(g, n, packet, a, d - 1, u);
      assert Linked(g, u, b);
    } else if d > 0 {
      FloodCoversBall(g, n, packet, a, d - 1, b);
    }
  }

  /** At any moment of any run, in flight or not: no node has broadcast or stored a packet twice. */
  lemma NeverTwice(g: Graph, run: seq<Event>, v: nat, packet: string)
    requires Mutual(g) && Runs(g, Start(g), run)
    ensures var n := End(g, Start(g), run);
      n.floods[(v, packet)] == n.mailbox[(v, packet)] == (if HasFlooded(n, v, packet) then 1 else 0)
  {
    StartIsInv(g);
    EveryRunKeepsSafe(g, Start(g), run);
  }

  predicate IsReceipt(e: Event, packet: string) {
    e.Receive? && e.msg.kind == Gossip && e.msg.packet == packet
  }

  function Receipts(run: seq<Event>, packet: string): nat {
    if run == [] then 0 else (if IsReceipt(run[0], packet) then 1 else 0) + Receipts(run[1..], packet)
  }

  ghost function GossipOf(ms: multiset<Msg>, packet: string): set<Msg> {
    set m | m in ms && m.kind == Gossip && m.packet == packet
  }

  lemma ReceivedHistory(g: Graph, n: Net, e: Event)
    requires Possible(g, n, e)
    ensures After(g, n, e).received == n.received + (if e.Receive? then multiset{e.msg} else multiset{})
  {
  }

  lemma NotYetReceived(g: Graph, n: Net, m: Msg)
    requires Safe(g, n) && m in n.flight && m.kind == Gossip
    ensures m !in n.received
  {
    assert n.sent[m] == n.received[m] + n.flight[m];
  }

  lemma ReceiptIsNew(g: Graph, n: Net, e: Event, packet: string)
    requires Mutual(g) && Safe(g, n) && Possible(g, n, e)
    ensures |GossipOf(After(g, n, e).received, packet)|
      == |GossipOf(n.received, packet)| + (if IsReceipt(e, packet) then 1 else 0)
  {
    hide Safe, After, Mutual;
    var before, after := GossipOf(n.received, packet), GossipOf(After(g, n, e).received, packet);
    ReceivedHistory(g, n, e);
    if IsReceipt(e, packet) {
      NotYetReceived(g, n, e.msg);
      assert after == before + {e.msg} && e.msg !in before;
    } else {
      assert after == before;
    }
  }

  lemma CanReceive(g: Graph, n: Net, m: Msg)
    requires Mutual(g) && Safe(g, n) && m in n.flight
    ensures Possible(g, n, Receive(m, true, true, true, 0))
  {
    assert m in n.sent && Linked(g, m.src, m.dst) && Linked(g, m.dst, m.src);
  }

  lemma {:induction false} ReceiptsAreCounted(g: Graph, n: Net, run: seq<Event>, packet: string)
    requires Mutual(g) && Safe(g, n) && Runs(g, n, run)
    ensures |GossipOf(End(g, n, run).received, packet)| == |GossipOf(n.received, packet)| + Receipts(run, packet)
    decreases |run|
  {
    hide Safe, GossipOf, After;
    if run != [] {
      StepKeepsSafe(g, n, run[0]);
      ReceiptIsNew(g, n, run[0], packet);
      ReceiptsAreCounted(g, After(g, n, run[0]), run[1..], packet);
    }
  }

  /** One message for every link in every direction. */
  ghost function OnePerLink(links: set<(nat, nat)>, packet: string): set<Msg> {
    set l | l in links :: Msg(Gossip, l.0, l.1, packet)
  }

  lemma {:induction false} OnePerLinkCount(links: set<(nat, nat)>, packet: string)
    ensures |OnePerLink(links, packet)| == |links|
  {
    if links == {} {
      assert OnePerLink(links, packet) == {};
    } else {
      var l :| l in links;
      OnePerLinkCount(links - {l}, packet);
      assert OnePerLink(links, packet) == OnePerLink(links - {l}, packet) + {Msg(Gossip, l.0, l.1, packet)};
    }
  }

  lemma TrafficFitsLinks(g: Graph, n: Net, packet: string)
    requires Safe(g, n)
    ensures |GossipOf(n.received, packet)| <= |GossipOf(n.sent, packet)| <= |Pairs(g)|
  {
    forall m | m in GossipOf(n.sent, packet) ensures m in OnePerLink(Pairs(g), packet) {
      assert (m.src, m.dst) in Pairs(g);
    }
    OnePerLinkCount(Pairs(g), packet);
    SubsetSize(GossipOf(n.sent, packet), OnePerLink(Pairs(g), packet));
    SubsetSize(GossipOf(n.received, packet), GossipOf(n.sent, packet));
  }

  /** However a run goes, the Gossip messages with one packet number at most twice the links, sent or received. */
  lemma AtMostOnePerLink(g: Graph, run: seq<Event>, packet: string)
    requires Mutual(g) && Runs(g, Start(g), run)
    ensures Receipts(run, packet) <= |GossipOf(End(g, Start(g), run).sent, packet)| <= |Pairs(g)|
  {
    StartIsInv(g);
    EveryRunKeepsSafe(g, Start(g), run);
    ReceiptsAreCounted(g, Start(g), run, packet);
    TrafficFitsLinks(g, End(g, Start(g), run), packet);
    assert GossipOf(Start(g).received, packet) == {};
  }

  /** Receiving Gossip messages of one packet, in any order, must end, and then none is left. */
  lemma {:induction false} GossipDrains(g: Graph, n: Net, packet: string) returns (run: seq<Event>)
    requires Mutual(g) && Safe(g, n)
    ensures Runs(g, n, run) && Quiet(End(g, n, run), packet)
    ensures |run| == Receipts(run, packet) && |GossipOf(n.received, packet)| + |run| <= |Pairs(g)|
    decreases |Pairs(g)| - |GossipOf(n.received, packet)|
  {
    hide Safe, After, Mutual, GossipOf, Pairs;
    TrafficFitsLinks(g, n, packet);
    if Quiet(n, packet) {
      run := [];
    } else {
      var m :| m in n.flight && m.kind == Gossip && m.packet == packet;
      CanReceive(g, n, m);
      var e := Receive(m, true, true, true, 0);
      StepKeepsSafe(g, n, e);
      ReceiptIsNew(g, n, e, packet);
      TrafficFitsLinks(g, After(g, n, e), packet);
      var rest := GossipDrains(g, After(g, n, e), packet);
      run := [e] + rest;
      assert run[1..] == rest;
    }
  }

  lemma {:induction false} AllAreReceipts(run: seq<Event>, packet: string)
    requires forall e :: e in run ==> IsReceipt(e, packet)
    ensures Receipts(run, packet) == |run|
  {
    if run != [] { AllAreReceipts(run[1..], packet); }
  }

  /** Every run of such receipts is that short, and one that cannot go on has left no message of the packet in flight. */
  lemma EveryDrainEnds(g: Graph, n: Net, run: seq<Event>, packet: string)
    requires Mutual(g) && Safe(g, n) && Runs(g, n, run) && forall e :: e in run ==> IsReceipt(e, packet)
    ensures |GossipOf(n.received, packet)| + |run| <= |Pairs(g)|
    ensures (forall e :: IsReceipt(e, packet) ==> !Possible(g, End(g, n, run), e)) ==> Quiet(End(g, n, run), packet)
  {
    hide Safe, Mutual, GossipOf, Pairs, Possible;
    var end := End(g, n, run);
    EveryRunKeepsSafe(g, n, run);
    ReceiptsAreCounted(g, n, run, packet);
    AllAreReceipts(run, packet);
    TrafficFitsLinks(g, end, packet);
    forall m | m in end.flight && m.kind == Gossip && m.packet == packet
      ensures IsReceipt(Receive(m, true, true, true, 0), packet) && Possible(g, end, Receive(m, true, true, true, 0))
    {
      CanReceive(g, end, m);
    }
  }
}
