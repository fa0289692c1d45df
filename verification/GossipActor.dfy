/**
 * The relay actor of the cache node: what it does with one Gossip or Stem message. Peers and packets are named by
 * their ids; rate limiting and packet validation enter as the verdicts `allowed` and `valid`, and the Dandelion coin
 * as `coin`.
 */
module GossipRelay {
  import opened Wrappers

  datatype Kind = Gossip | Stem

  /** A command to the peer manager. */
  datatype Command =
    | Silence
    | Broadcast(exclude: Option<nat>)
    | ForwardStem(from: nat)

  datatype Actor = Actor(verified: set<nat>, flooded: set<string>, delivered: set<string>)

  datatype Outcome = Outcome(actor: Actor, toMailbox: bool, command: Command)

  function Delivered(a: Actor, packet: string): (Actor, bool) {
    if packet in a.delivered then (a, false) else (a.(delivered := a.delivered + {packet}), true)
  }

  function Flooded(a: Actor, exclude: Option<nat>, packet: string): (Actor, Command) {
    if packet in a.flooded then (a, Silence) else (a.(flooded := a.flooded + {packet}), Broadcast(exclude))
  }

  function Handle(a: Actor, peer: nat, kind: Kind, packet: string, allowed: bool, valid: bool, coin: bool): Outcome {
    if !allowed || peer !in a.verified || !valid then Outcome(a, false, Silence)
    else if kind == Stem && (exists p :: p in a.verified && p != peer) && !coin then
      Outcome(a, false, ForwardStem(peer))
    else
      var (a1, stored) := Delivered(a, packet);
      var (a2, command) := Flooded(a1, if kind == Gossip then Some(peer) else None, packet);
      Outcome(a2, stored, command)
  }

  /** Whom the peer manager sends a broadcast to, among its verified peers. */
  function BroadcastTargets(verified: set<nat>, exclude: Option<nat>): set<nat> {
    set p | p in verified && Some(p) != exclude
  }

  class GossipActor {
    var verified: set<nat>
    var flooded: set<string>
    var delivered: set<string>
    var mailboxTx: seq<string>
    var pmCmdTx: seq<(Command, Kind, string)>

    constructor (verified: set<nat>)
      ensures State() == Actor(verified, {}, {}) && mailboxTx == [] && pmCmdTx == []
    {
      this.verified, flooded, delivered, mailboxTx, pmCmdTx := verified, {}, {}, [], [];
    }

    function State(): Actor
      reads this
    {
      Actor(verified, flooded, delivered)
    }

    /** Every effect of one message: the new sets, at most one mailbox entry and at most one command. */
    method HandleMessage(peer: nat, kind: Kind, packet: string, allowed: bool, valid: bool, coin: bool)
      modifies this
      ensures verified == old(verified)
      ensures !(allowed && peer in old(verified) && valid) ==>
        && flooded == old(flooded) && delivered == old(delivered)
        && mailboxTx == old(mailboxTx) && pmCmdTx == old(pmCmdTx)
      ensures allowed && peer in old(verified) && valid ==>
        if kind == Stem && !coin && exists p :: p in old(verified) && p != peer then
          && flooded == old(flooded) && delivered == old(delivered) && mailboxTx == old(mailboxTx)
          && pmCmdTx == old(pmCmdTx) + [(ForwardStem(peer), Stem, packet)]
        else
          && delivered == old(delivered) + {packet} && flooded == old(flooded) + {packet}
          && mailboxTx == (if packet in old(delivered) then old(mailboxTx) else old(mailboxTx) + [packet])
          && pmCmdTx == (if packet in old(flooded) then old(pmCmdTx)
            else old(pmCmdTx) + [(Broadcast(if kind == Gossip then Some(peer) else None), Gossip, packet)])
      ensures var o := Handle(old(State()), peer, kind, packet, allowed, valid, coin);
        && State() == o.actor
        && mailboxTx == old(mailboxTx) + (if o.toMailbox then [packet] else [])
        && pmCmdTx == old(pmCmdTx) + (
          if o.command == Silence then []
          else [(o.command, if o.command.ForwardStem? then Stem else Gossip, packet)])
    {
      if !allowed { return; }
      if peer !in verified { return; }
      if !valid { return; }
      if kind == Gossip {
        DeliverToMailbox(packet);
        Flood(Some(peer), packet);
      } else {
        var hasForwardTarget := exists p :: p in verified && p != peer;
        var shouldFluff := !hasForwardTarget || coin;
        if shouldFluff {
          DeliverToMailbox(packet);
          Flood(None, packet);
        } else {
          pmCmdTx := pmCmdTx + [(ForwardStem(peer), Stem, packet)];
        }
      }
    }

    method DeliverToMailbox(packet: string)
      modifies this`delivered, this`mailboxTx
      ensures Delivered(old(State()), packet).0 == State() && delivered == old(delivered) + {packet}
      ensures mailboxTx == if packet in old(delivered) then old(mailboxTx) else old(mailboxTx) + [packet]
      ensures mailboxTx == old(mailboxTx) + (if Delivered(old(State()), packet).1 then [packet] else [])
    {
      if packet in delivered { return; }
      delivered := delivered + {packet};
      mailboxTx := mailboxTx + [packet];
    }

    method Flood(exclude: Option<nat>, packet: string)
      modifies this`flooded, this`pmCmdTx
      ensures Flooded(old(State()), exclude, packet).0 == State() && flooded == old(flooded) + {packet}
      ensures pmCmdTx == if packet in old(flooded) then old(pmCmdTx) else old(pmCmdTx) + [(Broadcast(exclude), Gossip, packet)]
      ensures var command := Flooded(old(State()), exclude, packet).1;
        pmCmdTx == old(pmCmdTx) + (if command == Silence then [] else [(command, Gossip, packet)])
    {
      if packet in flooded { return; }
      flooded := flooded + {packet};
      pmCmdTx := pmCmdTx + [(Broadcast(exclude), Gossip, packet)];
    }
  }
}
