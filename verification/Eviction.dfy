/**
 * Which neighbours a node gives up when more than MAX_DEGREE of them are verified. Peers are numbered in the order in
 * which they entered the peer table.
 */
module Eviction {
  import opened Sets
  import opened Wrappers
  import opened StableOrder
  import opened MailboxStore

  const MAX_DEGREE := 16
  const LOCAL_LINKS := 4
  /** How often the eviction loop runs at most. */
  const GUARD := 2 * MAX_DEGREE

  datatype Peer = Peer(
    position: real, inbound: bool, connected: bool, verified: bool, netGroup: Option<string>, verifiedAt: Option<nat>)

  type Peers = map<nat, Peer>

  function RingDistances(me: real, vs: Peers): Keys {
    map id | id in vs :: RingDist(me, vs[id].position)
  }

  /** The neighbours on the ring: the LOCAL_LINKS nearest verified peers. */
  ghost function Local(me: real, vs: Peers): seq<nat> {
    Nearest(RingDistances(me, vs), LOCAL_LINKS)
  }

  function Group(p: Peer): string {
    if p.netGroup.Some? then p.netGroup.value else "unknown"
  }

  function VerifiedAt(p: Peer): nat {
    if p.verifiedAt.Some? then p.verifiedAt.value else 0
  }

  function OfGroup(vs: Peers, g: string): set<nat> {
    set id | id in vs && Group(vs[id]) == g
  }

  /** How many peers one group may fill, given how many groups were seen so far: rounded up, at least one. */
  function GroupCap(maxDegree: nat, distinctGroupsSeen: nat): nat {
    var seen := if distinctGroupsSeen < 1 then 1 else distinctGroupsSeen;
    var cap := (maxDegree + seen - 1) / seen;
    if cap < 1 then 1 else cap
  }

  function Overflow(vs: Peers, seen: nat, p: nat): int
    requires p in vs
  {
    |OfGroup(vs, Group(vs[p]))| - GroupCap(MAX_DEGREE, seen)
  }

  /** a goes before b: a more crowded group, then verified later, then farther away, then listed first. */
  predicate GoesFirst(me: real, vs: Peers, seen: nat, a: nat, b: nat)
    requires a in vs && b in vs
  {
    var byGroup := Overflow(vs, seen, b) - Overflow(vs, seen, a);
    var byTime := VerifiedAt(vs[b]) - VerifiedAt(vs[a]);
    var byDistance := RingDist(me, vs[b].position) - RingDist(me, vs[a].position);
    byGroup < 0
    || (byGroup == 0 && (byTime < 0 || (byTime == 0 && (byDistance < 0.0 || (byDistance == 0.0 && a < b)))))
  }

  /** Head of the pool once sorted. */
  ghost predicate IsFirstOf(me: real, vs: Peers, seen: nat, pool: set<nat>, v: nat) {
    v in pool && forall x :: x in pool && x != v ==> x in vs && v in vs && GoesFirst(me, vs, seen, v, x)
  }

  ghost function Inbounds(me: real, vs: Peers): set<nat> {
    set id | id in vs && vs[id].inbound && id !in Local(me, vs)
  }

  ghost function Others(me: real, vs: Peers, newcomer: Option<nat>): set<nat> {
    set id | id in vs && id !in Local(me, vs) && newcomer != Some(id)
  }

  /** The peer to drop, if there is one. */
  ghost predicate IsVictim(me: real, vs: Peers, seen: nat, newcomer: Option<nat>, v: nat) {
    if Inbounds(me, vs) != {} then IsFirstOf(me, vs, seen, Inbounds(me, vs), v)
    else if newcomer.Some? && newcomer.value in vs && newcomer.value !in Local(me, vs) then v == newcomer.value
    else IsFirstOf(me, vs, seen, Others(me, vs, newcomer), v)
  }

  /** A run of the eviction loop with `guard` rounds to go, from the verified peers vs: whom it drops, in turn. */
  ghost predicate Rebalancing(
    me: real, vs: Peers, seen: nat, newcomer: Option<nat>, guard: nat, victims: seq<nat>)
    decreases guard
  {
    if guard == 0 || |vs| <= MAX_DEGREE then victims == []
    else if victims == [] then forall v :: !IsVictim(me, vs, seen, newcomer, v)
    else
      && IsVictim(me, vs, seen, newcomer, victims[0])
      && Rebalancing(me, vs - {victims[0]}, seen, newcomer, guard - 1, victims[1..])
  }

  lemma VictimIsNotLocal(me: real, vs: Peers, seen: nat, newcomer: Option<nat>, v: nat)
    requires IsVictim(me, vs, seen, newcomer, v)
    ensures v in vs && v !in Local(me, vs)
    ensures Inbounds(me, vs) != {} ==> v in Inbounds(me, vs)
  {
  }

  /** Peers of the same origin: those of no known origin are among themselves. */
  predicate SameOrigin(p: Peer, q: Peer) {
    p.netGroup == q.netGroup
    || (p.netGroup in {None, Some("unknown")} && q.netGroup in {None, Some("unknown")})
  }

  /** v is from a larger group than x, or from one as large and verified later, or then farther away, or listed first. */
  ghost predicate Outranked(me: real, vs: Peers, v: nat, x: nat) {
    && v in vs && x in vs
    && var crowd := |set y | y in vs && SameOrigin(vs[y], vs[v])| - |set y | y in vs && SameOrigin(vs[y], vs[x])|;
       var since := (if vs[v].verifiedAt.Some? then vs[v].verifiedAt.value else 0)
                    - (if vs[x].verifiedAt.Some? then vs[x].verifiedAt.value else 0);
       var farther := RingDist(vs[v].position, me) - RingDist(vs[x].position, me);
       crowd > 0 || (crowd == 0 && (since > 0 || (since == 0 && (farther > 0.0 || (farther == 0.0 && v <= x)))))
  }

  /**
   * The peer to drop is none of the four nearest. It called, if one of the others did, and outranks all others that
   * did. If none did, it is the newcomer, if that is one of the others, or else it outranks them all.
   */
  ghost predicate Drops(me: real, vs: Peers, newcomer: Option<nat>, near: seq<nat>, v: nat) {
    && NearestByArc(Places(vs), me, 4, near) && v in vs && v !in near
    && (forall x :: x in vs && x !in near && vs[x].inbound ==> vs[v].inbound && Outranked(me, vs, v, x))
    && (!vs[v].inbound && newcomer.Some? && newcomer.value in vs && newcomer.value !in near ==> v == newcomer.value)
    && (!vs[v].inbound && newcomer != Some(v) ==> forall x :: x in vs && x !in near ==> Outranked(me, vs, v, x))
  }

  function Places(vs: Peers): map<nat, real> {
    map id | id in vs :: vs[id].position
  }

  lemma LocalByArc(me: real, vs: Peers)
    ensures NearestByArc(Places(vs), me, 4, Local(me, vs))
  {
    assert Distances(Places(vs), me) == RingDistances(me, vs) by {
      forall id | id in vs ensures RingDist(vs[id].position, me) == RingDist(me, vs[id].position) {}
    }
    NearestIsByArc(Places(vs), me, LOCAL_LINKS);
  }

  lemma GoesFirstOutranks(me: real, vs: Peers, seen: nat, a: nat, b: nat)
    requires a in vs && b in vs && (a == b || GoesFirst(me, vs, seen, a, b))
    ensures Outranked(me, vs, a, b)
  {
    forall x | x in vs ensures OfGroup(vs, Group(vs[x])) == set y | y in vs && SameOrigin(vs[y], vs[x]) {
      assert forall y :: y in vs ==> (SameOrigin(vs[y], vs[x]) <==> Group(vs[y]) == Group(vs[x]));
    }
    assert RingDist(me, vs[a].position) == RingDist(vs[a].position, me);
    assert RingDist(me, vs[b].position) == RingDist(vs[b].position, me);
  }

  lemma FirstOutranks(me: real, vs: Peers, seen: nat, pool: set<nat>, v: nat)
    requires IsFirstOf(me, vs, seen, pool, v) && pool <= vs.Keys
    ensures forall x :: x in pool ==> Outranked(me, vs, v, x)
  {
    hide GoesFirst, Outranked;
    forall x | x in pool ensures Outranked(me, vs, v, x) {
      GoesFirstOutranks(me, vs, seen, v, x);
    }
  }

  lemma VictimDrops(me: real, vs: Peers, seen: nat, newcomer: Option<nat>, v: nat)
    requires IsVictim(me, vs, seen, newcomer, v)
    ensures Drops(me, vs, newcomer, Local(me, vs), v)
  {
    hide GoesFirst, Outranked, Local, NearestByArc, IsFirstOf, Places;
    LocalByArc(me, vs);
    IsFirstIsThere(me, vs, seen, Inbounds(me, vs), v);
    IsFirstIsThere(me, vs, seen, Others(me, vs, newcomer), v);
    if Inbounds(me, vs) != {} {
      FirstOutranks(me, vs, seen, Inbounds(me, vs), v);
      assert v in Inbounds(me, vs);
      forall x | x in vs && x !in Local(me, vs) && vs[x].inbound ensures Outranked(me, vs, v, x) {
        assert x in Inbounds(me, vs);
      }
    } else {
      assert forall x :: x in vs && x !in Local(me, vs) ==> (x in Inbounds(me, vs) <==> vs[x].inbound);
      if newcomer != Some(v) {
        FirstOutranks(me, vs, seen, Others(me, vs, newcomer), v);
        forall x | x in vs && x !in Local(me, vs) ensures Outranked(me, vs, v, x) {
          assert x in Others(me, vs, newcomer);
        }
      }
    }
  }

  lemma IsFirstIsThere(me: real, vs: Peers, seen: nat, pool: set<nat>, v: nat)
    ensures IsFirstOf(me, vs, seen, pool, v) ==> v in pool
  {
  }

  lemma GoesFirstIsTransitive(me: real, vs: Peers, seen: nat, a: nat, b: nat, c: nat)
    requires a in vs && b in vs && c in vs && GoesFirst(me, vs, seen, a, b) && GoesFirst(me, vs, seen, b, c)
    ensures GoesFirst(me, vs, seen, a, c)
  {
    hide Overflow, RingDist, VerifiedAt;
  }

  lemma GoesFirstIsTotal(me: real, vs: Peers, seen: nat, a: nat, b: nat)
    requires a in vs && b in vs && a != b
    ensures GoesFirst(me, vs, seen, a, b) <==> !GoesFirst(me, vs, seen, b, a)
  {
    hide Overflow, RingDist, VerifiedAt;
  }

  lemma {:induction false} FirstExists(me: real, vs: Peers, seen: nat, pool: set<nat>) returns (v: nat)
    requires pool != {} && pool <= vs.Keys
    ensures IsFirstOf(me, vs, seen, pool, v)
  {
    hide GoesFirst;
    var x :| x in pool;
    var rest := pool - {x};
    if rest == {} {
      assert pool == {x};
      v := x;
    } else {
      var y := FirstExists(me, vs, seen, rest);
      GoesFirstIsTotal(me, vs, seen, x, y);
      if GoesFirst(me, vs, seen, x, y) {
        v := x;
        forall z | z in pool && z != x ensures GoesFirst(me, vs, seen, x, z) {
          if z != y { GoesFirstIsTransitive(me, vs, seen, x, y, z); }
        }
      } else {
        v := y;
      }
    }
  }

  /** The choice is determined. */
  lemma OneVictim(me: real, vs: Peers, seen: nat, newcomer: Option<nat>, v: nat, w: nat)
    requires IsVictim(me, vs, seen, newcomer, v) && IsVictim(me, vs, seen, newcomer, w)
    ensures v == w
  {
    hide GoesFirst, Local;
    if v != w && (Inbounds(me, vs) != {} || v in Others(me, vs, newcomer)) {
      GoesFirstIsTotal(me, vs, seen, v, w);
    }
  }

  /** The cap per group shifts every group's overflow alike: it never decides who goes. */
  lemma CapDoesNotMatter(me: real, vs: Peers, seen: nat, seen': nat, newcomer: Option<nat>, v: nat)
    ensures IsVictim(me, vs, seen, newcomer, v) <==> IsVictim(me, vs, seen', newcomer, v)
  {
    hide Local;
    forall a, b | a in vs && b in vs ensures GoesFirst(me, vs, seen, a, b) <==> GoesFirst(me, vs, seen', a, b) { }
    assert forall pool: set<nat> :: pool <= vs.Keys ==>
      (IsFirstOf(me, vs, seen, pool, v) <==> IsFirstOf(me, vs, seen', pool, v));
    assert Inbounds(me, vs) <= vs.Keys && Others(me, vs, newcomer) <= vs.Keys;
  }

  lemma SomeLocals(me: real, vs: Peers)
    ensures |Members(Local(me, vs))| <= LOCAL_LINKS && Members(Local(me, vs)) <= vs.Keys
  {
    hide Nearest, RingDist;
    var near := Local(me, vs);
    NearestIsDistinct(RingDistances(me, vs), LOCAL_LINKS);
    PrefixSize(near, |near|);
    assert near[..|near|] == near;
  }

  /** Above MAX_DEGREE there is always somebody to drop. */
  lemma VictimExists(me: real, vs: Peers, seen: nat, newcomer: Option<nat>) returns (v: nat)
    requires |vs| > MAX_DEGREE
    ensures IsVictim(me, vs, seen, newcomer, v)
  {
    hide Local, GoesFirst;
    if Inbounds(me, vs) != {} {
      v := FirstExists(me, vs, seen, Inbounds(me, vs));
    } else if newcomer.Some? && newcomer.value in vs && newcomer.value !in Local(me, vs) {
      v := newcomer.value;
    } else {
      SomeLocals(me, vs);
      var rest := vs.Keys - Members(Local(me, vs));
      var self: set<nat> := if newcomer.Some? then {newcomer.value} else {};
      assert |self| <= 1;
      SizeWithout(vs.Keys, Members(Local(me, vs)));
      SizeWithout(rest, self);
      assert |rest - self| > 0;
      assert rest - self == Others(me, vs, newcomer);
      v := FirstExists(me, vs, seen, Others(me, vs, newcomer));
    }
  }

  lemma SizeWithout(a: set<nat>, b: set<nat>)
    ensures |a - b| >= |a| - |b|
  {
    assert a == (a - b) + a * b;
    assert b == (b - a) + a * b;
  }

  /** Dropping a peer that is not local leaves the local ones as they were. */
  lemma LocalsStayOnce(me: real, vs: Peers, v: nat)
    requires v in vs && v !in Local(me, vs)
    ensures Local(me, vs - {v}) == Local(me, vs)
  {
    hide RingDist, Nearest;
    var key := RingDistances(me, vs);
    assert RingDistances(me, vs - {v}) == key - {v};
    NearestUnmoved(key, LOCAL_LINKS, v);
  }

  lemma NearestUnmoved(key: Keys, n: nat, v: nat)
    requires v in key && v !in Nearest(key, n)
    ensures Nearest(key - {v}, n) == Nearest(key, n)
  {
    hide Order, IsOrder;
    var k := OrderAfterRemove(key, v);
    DroppedBeyond(Order(key), k, n);
  }

  lemma DroppedBeyond(s: seq<nat>, k: nat, n: nat)
    requires k < |s| && s[k] !in (if n <= |s| then s[..n] else s)
    ensures n <= k && (s[..k] + s[k + 1..])[..n] == s[..n]
  {
    assert forall i :: 0 <= i < n && i < |s| ==> s[i] in (if n <= |s| then s[..n] else s);
  }

  /** Who is left after some have been dropped. */
  ghost function Left(vs: Peers, victims: seq<nat>): Peers {
    vs - Members(victims)
  }

  lemma LeftAfterFirst(vs: Peers, victims: seq<nat>)
    requires victims != []
    ensures Left(vs - {victims[0]}, victims[1..]) == Left(vs, victims)
  {
    assert victims == [victims[0]] + victims[1..];
    assert Members(victims) == {victims[0]} + Members(victims[1..]);
  }

  function RoundsLeft(n: nat, guard: nat): nat {
    if n <= MAX_DEGREE then 0 else if n - MAX_DEGREE < guard then n - MAX_DEGREE else guard
  }

  /** Nobody is dropped twice, the ring neighbours stay, and the number of drops is determined. */
  lemma {:induction false} RunKeepsLocals(
    me: real, vs: Peers, seen: nat, newcomer: Option<nat>, guard: nat, victims: seq<nat>)
    requires Rebalancing(me, vs, seen, newcomer, guard, victims)
    ensures |victims| == RoundsLeft(|vs|, guard) && |Left(vs, victims)| == |vs| - |victims|
    ensures Local(me, Left(vs, victims)) == Local(me, vs)
    ensures forall v :: v in victims ==> v in vs && v !in Local(me, vs)
    decreases guard
  {
    hide IsVictim, Local, Left;
    if guard == 0 || |vs| <= MAX_DEGREE {
      NobodyDropped(vs);
    } else {
      var some := VictimExists(me, vs, seen, newcomer);
      var v := victims[0];
      VictimIsNotLocal(me, vs, seen, newcomer, v);
      LocalsStayOnce(me, vs, v);
      OneLess(vs, v);
      RunKeepsLocals(me, vs - {v}, seen, newcomer, guard - 1, victims[1..]);
      LeftAfterFirst(vs, victims);
      forall x | x in victims ensures x in vs && x !in Local(me, vs) {
        assert x == v || x in victims[1..];
      }
    }
  }

  lemma NobodyDropped(vs: Peers)
    ensures Left(vs, []) == vs
  {
  }

  lemma OneLess(vs: Peers, v: nat)
    requires v in vs
    ensures |vs - {v}| == |vs| - 1
  {
    assert vs.Keys == (vs - {v}).Keys + {v};
  }

  /** From at most MAX_DEGREE + GUARD = 48 verified peers the loop comes down to MAX_DEGREE, and never below. */
  lemma EndsWithMaxDegree(me: real, vs: Peers, seen: nat, newcomer: Option<nat>, victims: seq<nat>)
    requires Rebalancing(me, vs, seen, newcomer, GUARD, victims)
    ensures |Left(vs, victims)| ==
      if |vs| <= 16 then |vs| else if |vs| <= 48 then 16 else |vs| - 32
    ensures |Left(vs, victims)| <= 16 <==> |vs| <= 48
  {
    RunKeepsLocals(me, vs, seen, newcomer, GUARD, victims);
  }

  /** Whom the loop would rather keep: its own choices and the ring neighbours. */
  ghost function Preferred(me: real, vs: Peers): set<nat> {
    set id | id in vs && (!vs[id].inbound || id in Local(me, vs))
  }

  function Outbound(vs: Peers): set<nat> {
    set id | id in vs && !vs[id].inbound
  }

  ghost predicate DropsOutbound(vs: Peers, victims: seq<nat>) {
    exists v :: v in victims && v in Outbound(vs)
  }

  lemma DropsOutboundFirstOrLater(vs: Peers, victims: seq<nat>)
    requires victims != [] && victims[0] in vs
    ensures DropsOutbound(vs, victims)
      <==> !vs[victims[0]].inbound || DropsOutbound(vs - {victims[0]}, victims[1..])
  {
    var v := victims[0];
    assert victims == [v] + victims[1..];
    assert forall x :: x in Outbound(vs - {v}) <==> x in Outbound(vs) && x != v;
    if !vs[v].inbound {
      assert v in victims && v in Outbound(vs);
    } else if DropsOutbound(vs, victims) {
      var x :| x in victims && x in Outbound(vs);
      assert x in victims[1..] && x in Outbound(vs - {v});
    }
  }

  lemma PreferredStay(me: real, vs: Peers, seen: nat, newcomer: Option<nat>, v: nat)
    requires IsVictim(me, vs, seen, newcomer, v)
    ensures v in vs
    ensures vs[v].inbound && |Preferred(me, vs)| < |vs| ==> Preferred(me, vs - {v}) == Preferred(me, vs)
    ensures |Preferred(me, vs)| == |vs| ==> v in Preferred(me, vs) && v !in Local(me, vs)
    ensures |Preferred(me, vs)| < |vs| ==> vs[v].inbound
  {
    hide IsVictim, Local;
    VictimIsNotLocal(me, vs, seen, newcomer, v);
    LocalsStayOnce(me, vs, v);
    PreferredAndInbounds(me, vs);
    if v !in Preferred(me, vs) { assert v in Inbounds(me, vs); }
  }

  lemma {:induction false} OutboundsOfRun(
    me: real, vs: Peers, seen: nat, newcomer: Option<nat>, guard: nat, victims: seq<nat>)
    requires Rebalancing(me, vs, seen, newcomer, guard, victims)
    ensures DropsOutbound(vs, victims) <==> RoundsLeft(|vs|, guard) > |vs| - |Preferred(me, vs)|
    decreases guard
  {
    hide IsVictim, Local, Preferred, DropsOutbound;
    PreferredAndInbounds(me, vs);
    if |vs| > MAX_DEGREE && guard > 0 {
      var some := VictimExists(me, vs, seen, newcomer);
      var v := victims[0];
      PreferredStay(me, vs, seen, newcomer, v);
      OneLess(vs, v);
      PreferredAndInbounds(me, vs - {v});
      OutboundsOfRun(me, vs - {v}, seen, newcomer, guard - 1, victims[1..]);
      DropsOutboundFirstOrLater(vs, victims);
    } else {
      assert !DropsOutbound(vs, []) by { NoneDropped(vs); }
    }
  }

  lemma NoneDropped(vs: Peers)
    ensures !DropsOutbound(vs, [])
  {
  }

  lemma PreferredAndInbounds(me: real, vs: Peers)
    ensures |Preferred(me, vs)| + |Inbounds(me, vs)| == |vs|
  {
    hide Local;
    assert vs.Keys == Preferred(me, vs) + Inbounds(me, vs);
    assert Preferred(me, vs) !! Inbounds(me, vs);
  }

  /**
   * From at most 48 verified peers, a peer of the node's own choice is given up exactly if those and the ring
   * neighbours alone are more than MAX_DEGREE.
   */
  lemma OutboundDroppedIff(me: real, vs: Peers, seen: nat, newcomer: Option<nat>, victims: seq<nat>)
    requires Rebalancing(me, vs, seen, newcomer, GUARD, victims) && |vs| <= 48
    ensures DropsOutbound(vs, victims) <==> |Preferred(me, vs)| > 16
  {
    hide Rebalancing, Preferred, DropsOutbound;
    OutboundsOfRun(me, vs, seen, newcomer, GUARD, victims);
    PreferredAndInbounds(me, vs);
  }

  /** With at most 12 of them they are all safe, however many strangers call. */
  lemma TwelveOutboundAreSafe(me: real, vs: Peers, seen: nat, newcomer: Option<nat>, guard: nat, victims: seq<nat>)
    requires Rebalancing(me, vs, seen, newcomer, guard, victims)
    requires |Outbound(vs)| <= 12
    ensures forall v :: v in victims ==> v in vs && vs[v].inbound
  {
    hide Rebalancing, Local;
    SomeLocals(me, vs);
    assert Preferred(me, vs) == Outbound(vs) + Members(Local(me, vs));
    UnionSize(Outbound(vs), Members(Local(me, vs)));
    OutboundsOfRun(me, vs, seen, newcomer, guard, victims);
    PreferredAndInbounds(me, vs);
    RunKeepsLocals(me, vs, seen, newcomer, guard, victims);
  }

  lemma UnionSize(a: set<nat>, b: set<nat>)
    ensures |a + b| <= |a| + |b|
  {
  }

  /** A survivor that could have been dropped could have been dropped in every round, instead of the victim. */
  lemma SurvivorWasInThePool(
    me: real, vs: Peers, seen: nat, newcomer: Option<nat>, guard: nat, victims: seq<nat>, b: nat)
    requires Rebalancing(me, vs, seen, newcomer, guard, victims) && victims != []
    requires b in Inbounds(me, Left(vs, victims))
    ensures victims[0] in vs && b in vs && b != victims[0] && vs[b] == Left(vs, victims)[b]
    ensures GoesFirst(me, vs, seen, victims[0], b)
  {
    hide GoesFirst, Local;
    RunKeepsLocals(me, vs, seen, newcomer, guard, victims);
    assert victims[0] in Members(victims);
    assert b in Inbounds(me, vs);
  }

  /** Within a group the newer peers go first: who stays was verified no later than who went, or was nearer. */
  lemma {:induction false} OldestOfAGroupStay(
    me: real, vs: Peers, seen: nat, newcomer: Option<nat>, guard: nat, victims: seq<nat>, a: nat, b: nat)
    requires Rebalancing(me, vs, seen, newcomer, guard, victims)
    requires a in victims && a in vs && b in Inbounds(me, Left(vs, victims)) && Group(vs[a]) == Group(vs[b])
    ensures VerifiedAt(vs[b]) <= VerifiedAt(vs[a])
    ensures VerifiedAt(vs[b]) == VerifiedAt(vs[a]) ==> RingDist(me, vs[b].position) <= RingDist(me, vs[a].position)
    decreases guard
  {
    hide Local, IsVictim, Group, VerifiedAt, RingDist;
    var v := victims[0];
    SurvivorWasInThePool(me, vs, seen, newcomer, guard, victims, b);
    if a != v {
      assert victims == [v] + victims[1..];
      LeftAfterFirst(vs, victims);
      OldestOfAGroupStay(me, vs - {v}, seen, newcomer, guard - 1, victims[1..], a, b);
    }
  }

  /**
   * Groups are levelled: a group that lost a peer ends no more than one below any group that still has a peer which
   * could have been dropped instead.
   */
  lemma {:induction false} GroupsEndLevel(
    me: real, vs: Peers, seen: nat, newcomer: Option<nat>, guard: nat, victims: seq<nat>, a: nat, b: nat)
    requires Rebalancing(me, vs, seen, newcomer, guard, victims)
    requires a in victims && a in vs && b in Inbounds(me, Left(vs, victims))
    ensures |OfGroup(Left(vs, victims), Group(vs[b]))| <= |OfGroup(Left(vs, victims), Group(vs[a]))| + 1
    decreases guard
  {
    hide Local, IsVictim, Group;
    var v := victims[0];
    var left, ga, gb := Left(vs, victims), Group(vs[a]), Group(vs[b]);
    SurvivorWasInThePool(me, vs, seen, newcomer, guard, victims, b);
    assert victims == [v] + victims[1..];
    LeftAfterFirst(vs, victims);
    if a' :| a' in victims[1..] && a' in vs - {v} && Group(vs[a']) == ga {
      GroupsEndLevel(me, vs - {v}, seen, newcomer, guard - 1, victims[1..], a', b);
    } else {
      assert a == v;
      assert OfGroup(left, ga) == OfGroup(vs, ga) - {v};
      SubsetSize(OfGroup(left, gb), OfGroup(vs, gb));
      assert Overflow(vs, seen, b) <= Overflow(vs, seen, v);
    }
  }
}
