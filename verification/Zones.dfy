/**
 * Which zones a node listens to as its estimate of the network grows and shrinks. Random picks are free choices, and
 * the positions of its neighbours are an input.
 */
module Zones {
  import opened Sets
  import opened Wrappers
  import opened Bytes
  import opened PowPolicy
  import opened MailboxStore

  const MAX_DEPTH := 12
  const SUBSCRIBE_COUNT := 16
  const TARGET_ZONE_POP := 500
  const MIN_PEERS_FOR_ESTIMATE := 8

  /** A byte that is missing counts as zero in a shift. */
  function ByteAt(topic: seq<Byte>, i: nat): Byte {
    if i < |topic| then topic[i] else 0
  }

  /** topicHash[0] << 8 | topicHash[1] */
  function Leading(topic: seq<Byte>): (n: nat)
    ensures n < 0x1_0000
  {
    ByteAt(topic, 0) as nat * 256 + ByteAt(topic, 1) as nat
  }

  /** The first `depth` bits of the topic's hash. */
  function ComputeZoneId(topic: seq<Byte>, depth: nat): nat
    requires depth <= 16
  {
    if depth == 0 then 0 else ShiftRight(Leading(topic), 16 - depth)
  }

  function Quotient(n: nat, m: nat): nat
    requires m > 0
  {
    n / m
  }

  /** n >> k */
  function ShiftRight(n: nat, k: nat): nat {
    Quotient(n, Pow2(k))
  }

  /** n in mixed radix: r below a, s below b, p the rest. */
  lemma MixedRadix(n: nat, a: nat, b: nat, q: nat, r: nat, p: nat, s: nat)
    requires n == q * a + r && q == p * b + s && s < b && r < a
    ensures n == p * (a * b) + (s * a + r) && s * a + r < a * b
  {
    HeadDecides(s, r, b, a);
    assert b * a == a * b;
    assert q * a == (p * b) * a + s * a;
    assert (p * b) * a == p * (b * a);
  }

  lemma ProductIsPositive(a: nat, b: nat)
    requires a > 0 && b > 0
    ensures a * b > 0
  {
    assert a * b == (a - 1) * b + b;
  }

  lemma DivTwice(n: nat, a: nat, b: nat)
    requires a > 0 && b > 0
    ensures a * b > 0 && n / (a * b) == n / a / b
  {
    var q, r := n / a, n % a;
    var p, s := q / b, q % b;
    MixedRadix(n, a, b, q, r, p, s);
    ProductIsPositive(a, b);
    ModIs(n, a * b, p, s * a + r);
  }

  /** Going deeper only splits zones: the zone at a lower depth is a prefix. */
  lemma ShallowerZoneIsPrefix(topic: seq<Byte>, depth: nat, k: nat)
    requires depth + k <= 16
    ensures ComputeZoneId(topic, depth + k) / Pow2(k) == ComputeZoneId(topic, depth)
    ensures ComputeZoneId(topic, depth) < Pow2(depth)
  {
    hide Pow2, ByteAt;
    var v := Leading(topic);
    Pow2OfBytes(2);
    DivBelow(v, depth);
    NoLevels();
    if depth + k > 0 {
      Pow2Adds(16 - (depth + k), k);
      DivTwice(v, Pow2(16 - (depth + k)), Pow2(k));
    }
    if depth == 0 { ModIs(v, Pow2(16), 0, v); }
  }

  /** The zone id is the leading bits of the hash: what follows them is less than one step. */
  lemma ZoneIsLeadingBits(topic: seq<Byte>, depth: nat)
    requires depth <= 16
    ensures var first := if |topic| > 0 then topic[0] as nat else 0;
      var second := if |topic| > 1 then topic[1] as nat else 0;
      PartOf(first * 256 + second, ComputeZoneId(topic, depth), 16 - depth)
  {
    hide Pow2;
    Pow2OfBytes(2);
    var v, m := Leading(topic), Pow2(16 - depth);
    var q := v / m;
    assert v == q * m + v % m;
    assert (q + 1) * m == q * m + m;
    if depth == 0 { ModIs(v, m, 0, v); }
  }

  /** z is one of the 2^shift zones that zone o splits into, `shift` levels deeper. */
  ghost predicate PartOf(z: nat, o: nat, shift: nat) {
    o * Pow2(shift) <= z < (o + 1) * Pow2(shift)
  }

  lemma PartIff(z: nat, o: nat, shift: nat)
    ensures PartOf(z, o, shift) <==> ParentOf(z, shift) == o
  {
    hide Pow2;
    var m := Pow2(shift);
    assert z == (z / m) * m + z % m;
    assert (o + 1) * m == o * m + m;
    if PartOf(z, o, shift) { ModIs(z, m, o, z - o * m); }
  }

  lemma NoLevels()
    ensures Pow2(0) == 1
  {
  }

  lemma DivBelow(v: nat, depth: nat)
    requires v < Pow2(16) && depth <= 16
    ensures v / Pow2(16 - depth) < Pow2(depth)
  {
    hide Pow2;
    Pow2Adds(depth, 16 - depth);
    HeadDecides(v / Pow2(16 - depth), v % Pow2(16 - depth), Pow2(depth), Pow2(16 - depth));
  }

  /** All zones there are at a depth. */
  function AllZones(total: nat): (s: set<nat>)
    ensures |s| == total && forall z: nat :: z in s <==> z < total
  {
    if total == 0 then {} else AllZones(total - 1) + {total - 1}
  }

  /** As many zones as a node listens to, all of them existing; every zone while there are no more than that. */
  ghost predicate SubscriptionOk(zones: set<nat>, depth: nat) {
    && |zones| == Min(16, Pow2(depth))
    && forall z :: z in zones ==> z < Pow2(depth)
  }

  /** The zone that z is part of, `shift` levels up. */
  function ParentOf(z: nat, shift: nat): int {
    z / Pow2(shift)
  }

  lemma NoNegativeProduct(a: nat, b: nat)
    ensures a * b >= 0
  {
  }

  /** (parent << shift) | r */
  function ChildZone(parent: nat, r: nat, shift: nat): nat {
    NoNegativeProduct(parent, Pow2(shift));
    parent * Pow2(shift) + r
  }

  /** Some zone below parent is listened to, `shift` levels deeper. */
  ghost predicate HasDescendant(zones: set<nat>, parent: nat, shift: nat) {
    exists z :: z in zones && PartOf(z, parent, shift)
  }

  lemma ChildOf(parent: nat, r: nat, depth: nat, shift: nat)
    requires parent < Pow2(depth) && r < Pow2(shift)
    ensures var child := ChildZone(parent, r, shift); ParentOf(child, shift) == parent && child < Pow2(depth + shift)
  {
    hide Pow2;
    Pow2Adds(depth, shift);
    Child(parent, r, Pow2(depth), Pow2(shift));
  }

  lemma Child(parent: nat, r: nat, parents: nat, children: nat)
    requires parent < parents && r < children
    ensures (parent * children + r) / children == parent && parent * children + r < parents * children
  {
    ModIs(parent * children + r, children, parent, r);
    HeadDecides(parent, r, parents, children);
  }

  /** While every zone is listened to, every old zone keeps all of its descendants. */
  lemma FullKeepsDescendants(zones: set<nat>, parent: nat, depth: nat, shift: nat)
    requires parent < Pow2(depth) && forall z: nat :: z < Pow2(depth + shift) ==> z in zones
    ensures HasDescendant(zones, parent, shift)
  {
    hide PartOf;
    ChildOf(parent, 0, depth, shift);
    var child := ChildZone(parent, 0, shift);
    PartIff(child, parent, shift);
    assert child in zones;
  }

  /** Fill up with any zones that are not taken yet. */
  method FillUp(start: set<nat>, total: nat, count: nat) returns (zones: set<nat>)
    requires |start| <= count <= total && forall z :: z in start ==> z < total
    ensures start <= zones && |zones| == count && forall z :: z in zones ==> z < total
  {
    zones := start;
    while |zones| < count
      invariant start <= zones && |zones| <= count && forall z :: z in zones ==> z < total
      decreases count - |zones|
    {
      var spare := AllZones(total) - zones;
      assert zones <= AllZones(total);
      SubsetSize(zones, AllZones(total));
      assert spare != {} by { SomeSpare(zones, AllZones(total)); }
      var z :| z in spare;
      zones := zones + {z};
    }
  }

  lemma SomeSpare(some: set<nat>, all: set<nat>)
    requires some <= all && |some| < |all|
    ensures all - some != {}
  {
    assert all == some + (all - some);
  }

  /** The depth the design prescribes for a size: the least at which zones hold at most TARGET_ZONE_POP, up to 12. */
  function TargetDepth(size: real): (d: nat)
    ensures d <= MAX_DEPTH
    ensures forall e :: 0 <= e < d ==> size > (TARGET_ZONE_POP * Pow2(e)) as real
    ensures d < MAX_DEPTH ==> size <= (TARGET_ZONE_POP * Pow2(d)) as real
  {
    LeastDepth(size, 0)
  }

  function LeastDepth(size: real, d: nat): (r: nat)
    requires d <= MAX_DEPTH
    ensures d <= r <= MAX_DEPTH
    ensures forall e :: d <= e < r ==> size > (TARGET_ZONE_POP * Pow2(e)) as real
    ensures r < MAX_DEPTH ==> size <= (TARGET_ZONE_POP * Pow2(r)) as real
    decreases MAX_DEPTH - d
  {
    if d == MAX_DEPTH || size <= (TARGET_ZONE_POP * Pow2(d)) as real then d else LeastDepth(size, d + 1)
  }

  /** How far the neighbours are away, all together. */
  function TotalDist(peers: seq<real>, me: real): real {
    if peers == [] then 0.0 else TotalDist(peers[..|peers| - 1], me) + RingDist(peers[|peers| - 1], me)
  }

  function Times(a: real, b: real): real {
    a * b
  }

  function Inverse(y: real): (q: real)
    requires y != 0.0
    ensures Times(q, y) == 1.0
  {
    1.0 / y
  }

  /** The depth for the network's size as the mean distance of the neighbours tells it; at distance zero it is infinite. */
  function EstimatedDepth(avgDist: real): (d: nat)
    ensures d <= MAX_DEPTH
  {
    if avgDist == 0.0 then MAX_DEPTH else TargetDepth(Largest(10.0, Inverse(avgDist * 2.0)))
  }

  function Largest(a: real, b: real): real {
    if a < b then b else a
  }

  /** n stretches of this width stay below the whole circle. */
  predicate WithinOne(n: real, width: real) {
    Times(n, width) < 1.0
  }

  /** So the nearer the neighbours the deeper: each level takes neighbours twice as near. */
  lemma DeeperIff(avgDist: real, d: nat)
    requires avgDist >= 0.0 && d < 12
    ensures EstimatedDepth(avgDist) <= 12
    ensures EstimatedDepth(avgDist) > d <==> WithinOne((500 * Pow2(d)) as real, avgDist * 2.0)
  {
    hide Pow2, TargetDepth, Inverse, WithinOne;
    var n := TARGET_ZONE_POP * Pow2(d);
    if avgDist > 0.0 {
      DepthAbove(Largest(10.0, Inverse(avgDist * 2.0)), d, n);
      InverseWithin(avgDist * 2.0, n as real);
    } else {
      ZeroWithin(n as real);
    }
  }

  lemma ZeroWithin(n: real)
    ensures WithinOne(n, 0.0)
  {
  }

  lemma InverseWithin(width: real, n: real)
    requires width > 0.0
    ensures Inverse(width) > n <==> WithinOne(n, width)
  {
    hide Inverse, Times;
    Scale(Inverse(width), n, width);
  }

  lemma Scale(a: real, b: real, f: real)
    requires f > 0.0
    ensures a > b <==> Times(a, f) > Times(b, f)
  {
  }

  lemma DepthAbove(size: real, d: nat, n: nat)
    requires d < MAX_DEPTH && n == TARGET_ZONE_POP * Pow2(d)
    ensures (TargetDepth(size) > d <==> size > n as real) && n >= TARGET_ZONE_POP
  {
    hide Pow2, LeastDepth;
    var r := TargetDepth(size);
    if r <= d { Pow2Grows(r, d); }
  }

  /** For each zone one of its children, picked at random. */
  method OneChildEach(before: set<nat>, oldDepth: nat, shift: nat) returns (newZones: set<nat>)
    requires forall o :: o in before ==> o < Pow2(oldDepth)
    ensures |newZones| == |before| && forall z :: z in newZones ==> z < Pow2(oldDepth + shift)
    ensures forall o :: o in before ==> HasDescendant(newZones, o, shift)
  {
    hide Pow2, HasDescendant, ParentOf, ChildZone;
    newZones := {};
    var todo := before;
    ghost var done: set<nat> := {};
    while todo != {}
      invariant todo + done == before && todo !! done && |newZones| == |done|
      invariant forall z :: z in newZones ==> z < Pow2(oldDepth + shift) && ParentOf(z, shift) in done
      invariant forall o :: o in done ==> HasDescendant(newZones, o, shift)
    {
      var o :| o in todo;
      var r: nat :| r < Pow2(shift);
      var child := ChildZone(o, r, shift);
      ChildOf(o, r, oldDepth, shift);
      assert child !in newZones && |newZones + {child}| == |newZones| + 1;
      DescendantsStay(newZones, newZones + {child}, done, shift);
      HasThisDescendant(newZones + {child}, child, o, shift);
      newZones, todo := newZones + {child}, todo - {o};
      done := done + {o};
    }
    assert done == before;
  }

  lemma SubscriptionMeans(zones: set<nat>, depth: nat)
    requires SubscriptionOk(zones, depth)
    ensures |zones| <= SUBSCRIBE_COUNT && forall z :: z in zones ==> z < Pow2(depth)
  {
  }

  lemma SubscriptionIs(zones: set<nat>, depth: nat)
    requires |zones| == SUBSCRIBE_COUNT <= Pow2(depth) && forall z :: z in zones ==> z < Pow2(depth)
    ensures SubscriptionOk(zones, depth)
  {
  }

  /** The key of a watched topic: its first 32 bytes. */
  function First32(topic: seq<Byte>): seq<Byte> {
    if |topic| <= 32 then topic else topic[..32]
  }

  datatype Watch = Watch(topic: seq<Byte>, refs: nat)

  /** A subscription of the user interface: the topic it watches, and whether it was given back. */
  datatype Ticket = Ticket(topic: seq<Byte>, released: bool)

  ghost function Holding(tickets: seq<Ticket>, topic: seq<Byte>): set<nat> {
    set i: nat | i < |tickets| && tickets[i] == Ticket(topic, false)
  }

  /** A topic is watched exactly while somebody holds a ticket for it, and its count is the number of them. */
  ghost predicate WatchOk(watched: map<seq<Byte>, Watch>, tickets: seq<Ticket>) {
    && (forall t :: t in watched ==> watched[t].topic == t && watched[t].refs == |Holding(tickets, t)| > 0)
    && (forall t :: t !in watched ==> Holding(tickets, t) == {})
  }

  class ZoneManager {
    var depth: nat
    var subscribedZones: set<nat>
    var watched: map<seq<Byte>, Watch>
    var tickets: seq<Ticket>
    var decreaseTimer: bool

    ghost predicate Valid()
      reads this
    {
      depth <= MAX_DEPTH && SubscriptionOk(subscribedZones, depth) && WatchOk(watched, tickets)
    }

    /** Some watched topic is in this zone, at one depth or another. */
    ghost predicate IsWatched(zoneId: nat)
      requires WatchOk(watched, tickets)
      reads this
    {
      exists t, d: nat :: t in watched && d <= MAX_DEPTH && ComputeZoneId(watched[t].topic, d) == zoneId
    }

    constructor ()
      ensures Valid() && depth == 0 && watched == map[] && !decreaseTimer && tickets == []
    {
      depth, watched, tickets, decreaseTimer := 0, map[], [], false;
      subscribedZones := {0};
    }

    method InitSubscribedZones()
      requires depth <= MAX_DEPTH
      modifies `subscribedZones
      ensures SubscriptionOk(subscribedZones, depth)
      ensures Pow2(depth) <= SUBSCRIBE_COUNT ==> forall z: nat :: z < Pow2(depth) ==> z in subscribedZones
    {
      hide Pow2;
      var total := Pow2(depth);
      if total <= SUBSCRIBE_COUNT {
        subscribedZones := AllZones(total);
      } else {
        subscribedZones := FillUp({}, total, SUBSCRIBE_COUNT);
      }
    }

    /** After going deeper: one descendant of every zone, and the rest at random. */
    method UpdateSubscriptionAfterScaleUp(oldDepth: nat)
      requires oldDepth <= depth <= MAX_DEPTH && SubscriptionOk(subscribedZones, oldDepth)
      modifies `subscribedZones
      ensures SubscriptionOk(subscribedZones, depth)
      ensures forall o :: o in old(subscribedZones) ==> HasDescendant(subscribedZones, o, depth - oldDepth)
    {
      hide Pow2, HasDescendant, SubscriptionOk, ParentOf, ChildZone;
      SubscriptionMeans(subscribedZones, oldDepth);
      var total, shift, before := Pow2(depth), depth - oldDepth, subscribedZones;
      if total <= SUBSCRIBE_COUNT {
        InitSubscribedZones();
        forall o | o in before ensures HasDescendant(subscribedZones, o, shift) {
          FullKeepsDescendants(subscribedZones, o, oldDepth, shift);
        }
        return;
      }
      var newZones := OneChildEach(before, oldDepth, shift);
      var filled := FillUp(newZones, total, SUBSCRIBE_COUNT);
      DescendantsStay(newZones, filled, before, shift);
      SubscriptionIs(filled, depth);
      subscribedZones := filled;
    }

    /**
     * A new estimate from the neighbours' positions: up at once, down only by setting the timer. With fewer than eight
     * neighbours nothing happens.
     */
    method RecomputeDepth(peers: seq<real>, me: real)
      requires Valid()
      modifies `depth, `subscribedZones, `decreaseTimer
      ensures Valid()
      ensures |peers| < 8 ==>
        depth == old(depth) && subscribedZones == old(subscribedZones) && decreaseTimer == old(decreaseTimer)
      ensures |peers| >= 8 ==>
        var target := EstimatedDepth(TotalDist(peers, me) / |peers| as real);
        && depth == Max(old(depth), target) && (decreaseTimer <==> target < old(depth))
        && forall o :: o in old(subscribedZones) ==> HasDescendant(subscribedZones, o, depth - old(depth))
    {
      hide Pow2, HasDescendant, SubscriptionOk, EstimatedDepth;
      if |peers| < MIN_PEERS_FOR_ESTIMATE { return; }
      var totalDist := 0.0;
      for i := 0 to |peers|
        invariant totalDist == TotalDist(peers[..i], me)
        invariant Valid() && unchanged(this)
      {
        assert peers[..i + 1][..i] == peers[..i];
        totalDist := totalDist + RingDist(peers[i], me);
      }
      assert peers[..|peers|] == peers;
      MoveTo(EstimatedDepth(totalDist / |peers| as real));
    }

    method MoveTo(target: nat)
      requires Valid() && target <= MAX_DEPTH
      modifies `depth, `subscribedZones, `decreaseTimer
      ensures Valid() && depth == Max(old(depth), target) && (decreaseTimer <==> target < old(depth))
      ensures forall o :: o in old(subscribedZones) ==> HasDescendant(subscribedZones, o, depth - old(depth))
    {
      hide Pow2, HasDescendant, SubscriptionOk;
      if target > depth {
        decreaseTimer := false;
        var oldDepth := depth;
        depth := target;
        UpdateSubscriptionAfterScaleUp(oldDepth);
      } else {
        decreaseTimer := target < depth;
        forall o | o in subscribedZones ensures HasDescendant(subscribedZones, o, 0) {
          OwnDescendant(subscribedZones, o);
        }
      }
    }

    /** Five minutes later: one level up, whatever the target was. */
    method DecreaseTimerFires()
      requires Valid() && decreaseTimer
      modifies `depth, `subscribedZones, `decreaseTimer
      ensures Valid() && !decreaseTimer && depth == if old(depth) == 0 then 0 else old(depth) - 1
    {
      decreaseTimer := false;
      if depth > 0 { depth := depth - 1; }
      InitSubscribedZones();
    }

    method IsSubscribed(zoneId: nat) returns (yes: bool)
      requires Valid()
      ensures yes <==> Pow2(depth) <= 16 || zoneId in subscribedZones || IsWatched(zoneId)
    {
      hide Pow2, SubscriptionOk, ComputeZoneId;
      if Pow2(depth) <= SUBSCRIBE_COUNT { return true; }
      if zoneId in subscribedZones { return true; }
      var todo := watched.Keys;
      while todo != {}
        invariant todo <= watched.Keys
        invariant forall t, d: nat :: t in watched && t !in todo && d <= MAX_DEPTH ==> ComputeZoneId(watched[t].topic, d) != zoneId
      {
        var t :| t in todo;
        for d := 0 to MAX_DEPTH + 1
          invariant forall e: nat :: e < d ==> ComputeZoneId(watched[t].topic, e) != zoneId
        {
          if ComputeZoneId(watched[t].topic, d) == zoneId { return true; }
        }
        todo := todo - {t};
      }
      return false;
    }

    /** A board or thread is opened: the ticket gives it back, once. */
    method WatchTopic(topic: seq<Byte>) returns (ticket: nat)
      requires Valid()
      modifies `watched, `tickets
      ensures Valid() && ticket == |old(tickets)| && tickets == old(tickets) + [Ticket(First32(topic), false)]
      ensures First32(topic) in watched
    {
      var key := if |topic| > 32 then topic[..32] else topic;
      assert key == First32(topic);
      HoldingGrows(tickets, key);
      ticket := |tickets|;
      var refs := if key in watched then watched[key].refs else 0;
      watched := watched[key := Watch(key, refs + 1)];
      tickets := tickets + [Ticket(key, false)];
    }

    method Release(ticket: nat)
      requires Valid() && ticket < |tickets|
      modifies `watched, `tickets
      ensures Valid() && tickets == old(tickets)[ticket := old(tickets)[ticket].(released := true)]
      ensures var t := old(tickets)[ticket].topic; t in watched <==> Holding(tickets, t) != {}
      ensures old(tickets)[ticket].released ==> watched == old(watched)
    {
      if tickets[ticket].released { return; }
      var t := tickets[ticket].topic;
      HoldingShrinks(tickets, ticket);
      tickets := tickets[ticket := Ticket(t, true)];
      if watched[t].refs <= 1 { watched := watched - {t}; }
      else { watched := watched[t := Watch(t, watched[t].refs - 1)]; }
    }
  }

  lemma DescendantsStay(zones: set<nat>, more: set<nat>, parents: set<nat>, shift: nat)
    requires zones <= more && forall o :: o in parents ==> HasDescendant(zones, o, shift)
    ensures forall o :: o in parents ==> HasDescendant(more, o, shift)
  {
    forall o | o in parents ensures HasDescendant(more, o, shift) {
      var z :| z in zones && PartOf(z, o, shift);
      assert z in more;
    }
  }

  lemma HasThisDescendant(zones: set<nat>, z: nat, parent: nat, shift: nat)
    requires z in zones && ParentOf(z, shift) == parent
    ensures HasDescendant(zones, parent, shift)
  {
    PartIff(z, parent, shift);
  }

  lemma OwnDescendant(zones: set<nat>, o: nat)
    requires o in zones
    ensures HasDescendant(zones, o, 0)
  {
    assert PartOf(o, o, 0);
  }

  ghost function HoldingWith(tickets: seq<Ticket>, topic: seq<Byte>, t: seq<Byte>): set<nat> {
    if t == topic then Holding(tickets, t) + {|tickets|} else Holding(tickets, t)
  }

  lemma HoldingGrows(tickets: seq<Ticket>, topic: seq<Byte>)
    ensures forall t :: Holding(tickets + [Ticket(topic, false)], t) == HoldingWith(tickets, topic, t)
    ensures |Holding(tickets + [Ticket(topic, false)], topic)| == |Holding(tickets, topic)| + 1
  {
    var more := tickets + [Ticket(topic, false)];
    forall t ensures Holding(more, t) == HoldingWith(tickets, topic, t) { }
  }

  lemma HoldingShrinks(tickets: seq<Ticket>, i: nat)
    requires i < |tickets| && !tickets[i].released
    ensures var fewer, topic := tickets[i := tickets[i].(released := true)], tickets[i].topic;
      && (forall t :: Holding(fewer, t) == if t == topic then Holding(tickets, t) - {i} else Holding(tickets, t))
      && i in Holding(tickets, topic) && |Holding(fewer, topic)| == |Holding(tickets, topic)| - 1
  {
    var fewer, topic := tickets[i := tickets[i].(released := true)], tickets[i].topic;
    forall t ensures Holding(fewer, t) == if t == topic then Holding(tickets, t) - {i} else Holding(tickets, t) { }
  }
}
