/** The peer table of a node and the loop that brings its verified degree down to MAX_DEGREE. */
module PeerTable {
  import opened Wrappers
  import opened StableOrder
  import opened MailboxStore
  import opened Eviction

  const MAX_SEEN_GROUPS := 1024

  function Verified(peers: Peers): Peers {
    map id | id in peers && peers[id].connected && peers[id].verified :: peers[id]
  }

  /** Everyone dropped, the newcomer excepted, is put on a cool-down that starts now. */
  ghost predicate CooledDown(
    before: map<nat, nat>, after: map<nat, nat>, victims: seq<nat>, newcomer: Option<nat>, now: nat)
  {
    forall id ::
      (id in after <==> id in before || (id in victims && newcomer != Some(id)))
      && (id in after ==>
            if id in victims && newcomer != Some(id) then after[id] == now else id in before && after[id] == before[id])
  }

  class PeerManager {
    const myPosition: real
    var peers: Peers
    var coolDowns: map<nat, nat>
    var seenGroups: set<string>

    constructor (myPosition: real)
      ensures this.myPosition == myPosition && peers == map[] && coolDowns == map[] && seenGroups == {}
    {
      this.myPosition, peers, coolDowns, seenGroups := myPosition, map[], map[], {};
    }

    /** Remember the origin of a peer; the memory is bounded. */
    method NoteGroup(group: string)
      modifies `seenGroups
      ensures seenGroups ==
        if |old(seenGroups)| < 1024 then old(seenGroups) + {group} else old(seenGroups)
      ensures |old(seenGroups)| <= 1024 ==> |seenGroups| <= 1024
    {
      if |seenGroups| >= MAX_SEEN_GROUPS && group !in seenGroups { return; }
      SizeWith(seenGroups, group);
      seenGroups := seenGroups + {group};
    }

    method Disconnect(id: nat)
      modifies `peers
      ensures peers == old(peers) - {id}
    {
      if id in peers {
        peers := peers - {id};
      }
    }

    /** The head of the sorted pool. */
    method FirstOf(verified: Peers, pool: set<nat>) returns (first: nat)
      requires pool != {} && pool <= verified.Keys
      ensures IsFirstOf(myPosition, verified, |seenGroups|, pool, first)
    {
      hide GoesFirst;
      first :| first in pool;
      var todo := pool - {first};
      while todo != {}
        invariant todo <= pool && first in pool - todo
        invariant forall x :: x in pool - todo && x != first ==>
          GoesFirst(myPosition, verified, |seenGroups|, first, x)
      {
        var x :| x in todo;
        todo := todo - {x};
        GoesFirstIsTotal(myPosition, verified, |seenGroups|, first, x);
        if GoesFirst(myPosition, verified, |seenGroups|, x, first) {
          forall y | y in pool - todo && y != x ensures GoesFirst(myPosition, verified, |seenGroups|, x, y) {
            if y != first { GoesFirstIsTransitive(myPosition, verified, |seenGroups|, x, first, y); }
          }
          first := x;
        }
      }
      assert pool - {} == pool;
    }

    method PickEvictionVictim(verified: Peers, newcomer: Option<nat>)
      returns (victim: Option<nat>, ghost near: seq<nat>)
      ensures victim.Some? ==> IsVictim(myPosition, verified, |seenGroups|, newcomer, victim.value)
      ensures victim.None? ==> forall v :: !IsVictim(myPosition, verified, |seenGroups|, newcomer, v)
      ensures victim.None? ==> |verified| <= 16
      ensures NearestByArc(Places(verified), myPosition, 4, near)
      ensures victim.Some? ==> Drops(myPosition, verified, newcomer, near, victim.value)
      ensures victim.None? ==> forall x :: x in verified ==> x in near
    {
      hide IsFirstOf, Order, Drops, NearestByArc, Places, RingDist;
      near := Local(myPosition, verified);
      LocalByArc(myPosition, verified);
      var byDistance := Sort(RingDistances(myPosition, verified));
      var local := if |byDistance| < LOCAL_LINKS then byDistance else byDistance[..LOCAL_LINKS];
      assert local == Local(myPosition, verified);
      var pool := set id | id in verified && verified[id].inbound && id !in local;
      assert pool == Inbounds(myPosition, verified);
      if pool == {} {
        if newcomer.Some? && newcomer.value in verified && newcomer.value !in local {
          VictimDrops(myPosition, verified, |seenGroups|, newcomer, newcomer.value);
          return newcomer, near;
        }
        pool := set id | id in verified && id !in local && newcomer != Some(id);
        assert pool == Others(myPosition, verified, newcomer);
        if pool == {} {
          NobodyToDrop(myPosition, verified, |seenGroups|, newcomer);
          return None, near;
        }
      }
      var v := FirstOf(verified, pool);
      VictimDrops(myPosition, verified, |seenGroups|, newcomer, v);
      return Some(v), near;
    }

    method VerifiedPeers() returns (verified: Peers)
      ensures verified == Verified(peers)
    {
      verified := map id | id in peers && peers[id].connected && peers[id].verified :: peers[id];
    }

    /** Drop verified peers one by one, as long as there are too many. */
    method Rebalance(newcomer: Option<nat>, now: nat) returns (ghost victims: seq<nat>)
      modifies `peers, `coolDowns
      ensures Rebalancing(myPosition, old(Verified(peers)), |seenGroups|, newcomer, GUARD, victims)
      ensures Verified(peers) == Left(old(Verified(peers)), victims) && peers == Left(old(peers), victims)
      ensures CooledDown(old(coolDowns), coolDowns, victims, newcomer, now)
      ensures |old(Verified(peers))| <= 48 ==> |Verified(peers)| <= 16
      ensures Local(myPosition, Verified(peers)) == old(Local(myPosition, Verified(peers)))
      ensures forall i :: 0 <= i < |victims| ==> DropsInTurn(myPosition, old(Verified(peers)), newcomer, victims, i)
    {
      hide Rebalancing, IsVictim, Local, Left, CooledDown, Chosen, Verified, Drops, NearestByArc, DropsInTurn;
      victims := [];
      NothingYet(peers, coolDowns, newcomer, now);
      ghost var start := Verified(peers);
      NoneChosenYet(myPosition, start, |seenGroups|, newcomer);
      var guard := 0;
      while guard < GUARD
        invariant guard == |victims| <= GUARD && peers == Left(old(peers), victims)
        invariant Verified(peers) == Left(start, victims)
        invariant CooledDown(old(coolDowns), coolDowns, victims, newcomer, now)
        invariant Chosen(myPosition, start, |seenGroups|, newcomer, victims)
      {
        var verified := VerifiedPeers();
        if |verified| <= MAX_DEGREE { break; }
        var picked, near := PickEvictionVictim(verified, newcomer);
        if picked.None? { break; }
        var victim := picked.value;
        CoolDownOneMore(old(coolDowns), coolDowns, victims, newcomer, now, victim);
        if newcomer != Some(victim) { coolDowns := coolDowns[victim := now]; }
        Disconnect(victim);
        LeftOneMore(old(peers), victims, victim);
        LeftOneMore(start, victims, victim);
        VerifiedWithout(old(peers), victims + [victim]);
        ChosenOneMore(myPosition, start, |seenGroups|, newcomer, victims, victim);
        victims := victims + [victim];
        guard := guard + 1;
      }
      ChosenDrop(myPosition, start, |seenGroups|, newcomer, victims);
      RunFromRounds(myPosition, start, |seenGroups|, newcomer, victims, 0);
      RunKeepsLocals(myPosition, start, |seenGroups|, newcomer, GUARD, victims);
    }
  }

  /** In every round so far there were too many, and the victim was the one to drop. */
  ghost predicate Chosen(me: real, start: Peers, seen: nat, newcomer: Option<nat>, victims: seq<nat>) {
    forall i :: 0 <= i < |victims| ==>
      |Left(start, victims[..i])| > MAX_DEGREE && IsVictim(me, Left(start, victims[..i]), seen, newcomer, victims[i])
  }

  /** When victim number i went, too many were left of those at the start, and it was the one to go. */
  ghost predicate DropsInTurn(me: real, start: Peers, newcomer: Option<nat>, victims: seq<nat>, i: nat)
    requires i < |victims|
  {
    var left := start - Members(victims[..i]);
    |left| > 16 && exists near :: Drops(me, left, newcomer, near, victims[i])
  }

  lemma ChosenDrop(me: real, start: Peers, seen: nat, newcomer: Option<nat>, victims: seq<nat>)
    requires Chosen(me, start, seen, newcomer, victims)
    ensures forall i :: 0 <= i < |victims| ==> DropsInTurn(me, start, newcomer, victims, i)
  {
    hide IsVictim, Drops, Local;
    forall i | 0 <= i < |victims| ensures DropsInTurn(me, start, newcomer, victims, i) {
      VictimDrops(me, Left(start, victims[..i]), seen, newcomer, victims[i]);
    }
  }

  lemma NoneChosenYet(me: real, start: Peers, seen: nat, newcomer: Option<nat>)
    ensures Chosen(me, start, seen, newcomer, [])
  {
  }

  lemma ChosenOneMore(me: real, start: Peers, seen: nat, newcomer: Option<nat>, victims: seq<nat>, victim: nat)
    requires Chosen(me, start, seen, newcomer, victims) && |Left(start, victims)| > MAX_DEGREE
    requires IsVictim(me, Left(start, victims), seen, newcomer, victim)
    ensures Chosen(me, start, seen, newcomer, victims + [victim])
  {
    hide IsVictim, Left;
    var more := victims + [victim];
    assert more[..|victims|] == victims;
    assert forall i :: 0 <= i < |victims| ==> more[..i] == victims[..i];
  }

  lemma {:induction false} RunFromRounds(
    me: real, start: Peers, seen: nat, newcomer: Option<nat>, victims: seq<nat>, i: nat)
    requires Chosen(me, start, seen, newcomer, victims) && i <= |victims| <= GUARD
    requires |victims| == GUARD || |Left(start, victims)| <= MAX_DEGREE
    ensures Rebalancing(me, Left(start, victims[..i]), seen, newcomer, GUARD - i, victims[i..])
    ensures Left(start, []) == start
    decreases |victims| - i
  {
    hide IsVictim, Left, Rebalancing, CooledDown;
    NothingYet(start, map[], newcomer, 0);
    if i == |victims| {
      assert victims[..i] == victims && victims[i..] == [];
      RunOver(me, Left(start, victims), seen, newcomer, GUARD - i);
    } else {
      RunFromRounds(me, start, seen, newcomer, victims, i + 1);
      assert victims[..i + 1] == victims[..i] + [victims[i]];
      LeftOneMore(start, victims[..i], victims[i]);
      assert victims[i..] == [victims[i]] + victims[i + 1..];
      RoundFirst(me, Left(start, victims[..i]), seen, newcomer, GUARD - i, victims[i], victims[i + 1..]);
    }
  }

  lemma RunOver(me: real, vs: Peers, seen: nat, newcomer: Option<nat>, guard: nat)
    requires guard == 0 || |vs| <= MAX_DEGREE
    ensures Rebalancing(me, vs, seen, newcomer, guard, [])
  {
  }

  lemma RoundFirst(
    me: real, vs: Peers, seen: nat, newcomer: Option<nat>, guard: nat, victim: nat, rest: seq<nat>)
    requires guard > 0 && |vs| > MAX_DEGREE && IsVictim(me, vs, seen, newcomer, victim)
    requires Rebalancing(me, vs - {victim}, seen, newcomer, guard - 1, rest)
    ensures Rebalancing(me, vs, seen, newcomer, guard, [victim] + rest)
  {
    hide IsVictim;
    assert ([victim] + rest)[1..] == rest;
  }

  lemma CoolDownOneMore(
    before: map<nat, nat>, after: map<nat, nat>, victims: seq<nat>, newcomer: Option<nat>, now: nat, victim: nat)
    requires CooledDown(before, after, victims, newcomer, now)
    ensures CooledDown(
      before, if newcomer != Some(victim) then after[victim := now] else after, victims + [victim], newcomer, now)
  {
  }

  lemma SizeWith(s: set<string>, x: string)
    ensures x in s ==> s + {x} == s
    ensures x !in s ==> |s + {x}| == |s| + 1
  {
  }

  lemma NobodyToDrop(me: real, vs: Peers, seen: nat, newcomer: Option<nat>)
    requires Inbounds(me, vs) == {} && Others(me, vs, newcomer) == {}
    requires newcomer.Some? && newcomer.value in vs ==> newcomer.value in Local(me, vs)
    ensures (forall v :: !IsVictim(me, vs, seen, newcomer, v)) && |vs| <= MAX_DEGREE
    ensures forall x :: x in vs ==> x in Local(me, vs)
  {
    NobodyElse(me, vs, newcomer);
    hide Local, Inbounds, Others;
    if |vs| > MAX_DEGREE {
      var v := VictimExists(me, vs, seen, newcomer);
    }
  }

  lemma NobodyElse(me: real, vs: Peers, newcomer: Option<nat>)
    requires Others(me, vs, newcomer) == {} && (newcomer.Some? && newcomer.value in vs ==> newcomer.value in Local(me, vs))
    ensures forall x :: x in vs ==> x in Local(me, vs)
  {
    hide Local;
    assert forall x :: x in vs && newcomer != Some(x) && x !in Local(me, vs) ==> x in Others(me, vs, newcomer);
  }

  lemma NothingYet(peers: Peers, coolDowns: map<nat, nat>, newcomer: Option<nat>, now: nat)
    ensures Left(peers, []) == peers && Left(Verified(peers), []) == Verified(peers)
    ensures CooledDown(coolDowns, coolDowns, [], newcomer, now)
  {
  }

  lemma LeftOneMore(peers: Peers, victims: seq<nat>, victim: nat)
    ensures Left(peers, victims + [victim]) == Left(peers, victims) - {victim}
  {
    assert Members(victims + [victim]) == Members(victims) + {victim};
  }

  lemma VerifiedWithout(peers: Peers, victims: seq<nat>)
    ensures Verified(Left(peers, victims)) == Left(Verified(peers), victims)
  {
  }
}
